/** `greedy_decoding`: the one-pass decoder, modelled exactly as written.

    The running best `maxScore` and running choice `chosen` are set once (to 0 and NUL)
    before the position loop and never reset; within a row a letter is adopted only when
    it scores strictly more than the running best; the current `chosen` is appended and
    the current `maxScore` added to the score at every position.

    The reference characterisation below describes the output without the loops: the
    running best after each prefix (`Running`), the symbol each prefix is followed by
    (`Expected`), and the score as the total of the running bests (`TotalRunning`). */
module Greedy {
  import opened Alphabet
  import opened Sequences

  /** What a call returns: a decoded sequence; the `std::length_error` a negative length
      raises in `reserve`; or the point at which the decoder would ask the oracle for the
      row of a symbol outside the alphabet (the table access is undefined there). */
  datatype Decoded = Decoded(value: Sequence) | LengthError | OutOfAlphabet(symbol: int)

  // ---------------------------------------------------------------------------------
  // Reference: the best letter after a symbol.

  /** `a` indexes the first letter, among those from index `k` on, that `lm` scores
      highest after `cur`: no letter from `k` on scores more, and every letter between `k`
      and `a` scores strictly less. */
  ghost predicate FirstBestFrom(lm: Oracle, cur: int, k: nat, a: int) {
    && k <= a < |Docs|
    && (forall j :: k <= j < |Docs| ==> lm(cur, Doc(j)) <= lm(cur, Doc(a)))
    && (forall j :: k <= j < a ==> lm(cur, Doc(j)) < lm(cur, Doc(a)))
  }

  lemma {:induction false} FirstBestFromExists(lm: Oracle, cur: int, k: nat)
    requires k < |Docs|
    ensures exists a :: FirstBestFrom(lm, cur, k, a)
    decreases |Docs| - k
  {
    if k == |Docs| - 1 {
      assert FirstBestFrom(lm, cur, k, k);
    } else {
      FirstBestFromExists(lm, cur, k + 1);
      var b :| FirstBestFrom(lm, cur, k + 1, b);
      if lm(cur, Doc(k)) >= lm(cur, Doc(b)) {
        assert FirstBestFrom(lm, cur, k, k);
      } else {
        assert FirstBestFrom(lm, cur, k, b);
      }
    }
  }

  lemma FirstBestFromUnique(lm: Oracle, cur: int, k: nat, a: int, b: int)
    requires FirstBestFrom(lm, cur, k, a) && FirstBestFrom(lm, cur, k, b)
    ensures a == b
  {
    assert lm(cur, Doc(a)) <= lm(cur, Doc(b)) && lm(cur, Doc(b)) <= lm(cur, Doc(a));
  }

  /** The index of the first letter, in alphabet order, of highest score after `cur`. */
  ghost function ArgMax(lm: Oracle, cur: int): (a: nat)
    ensures a < |Docs|
  {
    FirstBestFromExists(lm, cur, 0);
    var a :| FirstBestFrom(lm, cur, 0, a);
    a
  }

  /** `ArgMax` is the first best letter of the whole row. */
  lemma ArgMaxIsFirstBest(lm: Oracle, cur: int)
    ensures FirstBestFrom(lm, cur, 0, ArgMax(lm, cur))
  {
  }

  /** The highest score `lm` gives any letter after `cur`. */
  ghost function RowMax(lm: Oracle, cur: int): real {
    lm(cur, Doc(ArgMax(lm, cur)))
  }

  // ---------------------------------------------------------------------------------
  // The decoder as written.

  /** The scan over `docs` at one position (lines 54-60), from index `k` on, with the
      running best `best` and running choice `chosen`. */
  function ScanRow(lm: Oracle, cur: int, k: nat, best: real, chosen: int): (real, int)
    requires k <= |Docs|
    decreases |Docs| - k
  {
    if k == |Docs| then (best, chosen)
    else
      var tmp := lm(cur, Doc(k));
      if tmp > best then ScanRow(lm, cur, k + 1, tmp, Doc(k))
      else ScanRow(lm, cur, k + 1, best, chosen)
  }

  /** A scan from index `k` ends on the first letter of maximal score from `k` on when
      that score beats the running best strictly, and leaves the running pair unchanged
      otherwise: a later letter of equal score never replaces an earlier one. */
  lemma {:induction false} ScanRowFindsFirstBest(lm: Oracle, cur: int, k: nat, best: real, chosen: int, a: int)
    requires FirstBestFrom(lm, cur, k, a)
    ensures ScanRow(lm, cur, k, best, chosen)
            == if lm(cur, Doc(a)) > best then (lm(cur, Doc(a)), Doc(a)) else (best, chosen)
    decreases |Docs| - k
  {
    var tmp := lm(cur, Doc(k));
    if k == |Docs| - 1 {
      assert a == k;
    } else {
      FirstBestFromExists(lm, cur, k + 1);
      var b :| FirstBestFrom(lm, cur, k + 1, b);
      if tmp >= lm(cur, Doc(b)) {
        assert FirstBestFrom(lm, cur, k, k);
        FirstBestFromUnique(lm, cur, k, a, k);
      } else {
        assert FirstBestFrom(lm, cur, k, b);
        FirstBestFromUnique(lm, cur, k, a, b);
      }
      if tmp > best {
        ScanRowFindsFirstBest(lm, cur, k + 1, tmp, Doc(k), b);
      } else {
        ScanRowFindsFirstBest(lm, cur, k + 1, best, chosen, b);
      }
    }
  }

  /** The whole-row scan at one position, in terms of the row's best letter. */
  lemma ScanRowSpec(lm: Oracle, cur: int, best: real, chosen: int)
    ensures ScanRow(lm, cur, 0, best, chosen)
            == if RowMax(lm, cur) > best then (RowMax(lm, cur), Doc(ArgMax(lm, cur))) else (best, chosen)
  {
    ArgMaxIsFirstBest(lm, cur);
    ScanRowFindsFirstBest(lm, cur, 0, best, chosen, ArgMax(lm, cur));
  }

  /** The position loop (lines 53-63) with `steps` positions still to fill. The oracle's
      row for the last symbol is consulted only when it is a letter. */
  function GreedySteps(lm: Oracle, selected: seq<int>, score: real, chosen: int, maxScore: real,
                       steps: nat): Decoded
    requires |selected| > 0
    decreases steps
  {
    if steps == 0 then Decoded(Sequence(selected, score))
    else if !InAlphabet(Last(selected)) then OutOfAlphabet(Last(selected))
    else
      var next := ScanRow(lm, Last(selected), 0, maxScore, chosen);
      GreedySteps(lm, selected + [next.1], score + next.0, next.1, next.0, steps - 1)
  }

  /** `greedy_decoding(start, length)`. */
  function GreedyDecoding(lm: Oracle, start: int, length: int): Decoded {
    if length < 0 then LengthError
    else GreedySteps(lm, [start], 0.0, Nul, 0.0, if length > 1 then length - 1 else 0)
  }

  // ---------------------------------------------------------------------------------
  // Reference characterisation of the output.

  ghost predicate LettersBeforeLast(s: seq<int>) {
    forall j {:trigger InAlphabet(s[j])} :: 0 <= j < |s| - 1 ==> InAlphabet(s[j])
  }

  ghost predicate AllLetters(s: seq<int>) {
    forall j {:trigger InAlphabet(s[j])} :: 0 <= j < |s| ==> InAlphabet(s[j])
  }

  /** Scores are reals; the larger of two. */
  function MaxReal(a: real, b: real): real {
    if a < b then b else a
  }

  /** The running best once the prefix `p` has been produced: 0 before the first step,
      then the larger of the previous running best and the best score in the row of the
      symbol the last step extended. */
  ghost function Running(lm: Oracle, p: seq<int>): real
    requires |p| > 0 && LettersBeforeLast(p)
    decreases |p|
  {
    if |p| == 1 then 0.0
    else MaxReal(Running(lm, p[..|p| - 1]), RowMax(lm, p[|p| - 2]))
  }

  /** The symbol the decoder appends after the prefix `p`: the first best letter if its
      score beats the running best; otherwise the running choice, which is NUL at the
      first step and the previously appended symbol after that. */
  ghost function Expected(lm: Oracle, p: seq<int>): int
    requires |p| > 0 && AllLetters(p)
  {
    if RowMax(lm, Last(p)) > Running(lm, p) then Doc(ArgMax(lm, Last(p)))
    else if |p| == 1 then Nul
    else Last(p)
  }

  /** The sum of the running bests after each step that produced `s`. */
  ghost function TotalRunning(lm: Oracle, s: seq<int>): real
    requires |s| > 0 && LettersBeforeLast(s)
    decreases |s|
  {
    if |s| == 1 then 0.0
    else TotalRunning(lm, s[..|s| - 1]) + Running(lm, s)
  }

  /** `s` starts with `start` and each later symbol is the one `Expected` after its
      prefix. */
  ghost predicate GreedyLaw(lm: Oracle, start: int, s: seq<int>) {
    && |s| > 0
    && s[0] == start
    && LettersBeforeLast(s)
    && forall i {:trigger Expected(lm, s[..i])} :: 1 <= i < |s| ==> s[i] == Expected(lm, s[..i])
  }

  // ---------------------------------------------------------------------------------
  // The decoder meets the characterisation.

  lemma PrefixOfSnoc(s: seq<int>, c: int, i: nat)
    requires i <= |s|
    ensures (s + [c])[..i] == s[..i]
  {
  }

  /** The loop state `(selected, score, chosen, maxScore)` the characterisation predicts
      after producing `selected` from `start`. */
  ghost predicate OnTrack(lm: Oracle, start: int, selected: seq<int>, score: real, chosen: int, maxScore: real) {
    && GreedyLaw(lm, start, selected)
    && maxScore == Running(lm, selected)
    && score == TotalRunning(lm, selected)
    && chosen == if |selected| == 1 then Nul else Last(selected)
  }

  /** One position of the loop keeps the law, the running best and the score total. */
  lemma GreedyStepOnTrack(lm: Oracle, start: int, selected: seq<int>, score: real, chosen: int, maxScore: real)
    requires OnTrack(lm, start, selected, score, chosen, maxScore)
    requires InAlphabet(Last(selected))
    ensures var next := ScanRow(lm, Last(selected), 0, maxScore, chosen);
      OnTrack(lm, start, selected + [next.1], score + next.0, next.1, next.0)
  {
    ScanRowSpec(lm, Last(selected), maxScore, chosen);
    var next := ScanRow(lm, Last(selected), 0, maxScore, chosen);
    var m, c := next.0, next.1;
    assert c == Expected(lm, selected);
    AppendKeepsLaw(lm, start, selected, c);
    RunningSnoc(lm, selected, c);
  }

  lemma LettersSnoc(p: seq<int>, c: int)
    requires |p| > 0 && LettersBeforeLast(p) && InAlphabet(Last(p))
    ensures LettersBeforeLast(p + [c])
  {
  }

  lemma RunningSnoc1(lm: Oracle, p: seq<int>, c: int)
    requires |p| > 0 && LettersBeforeLast(p) && InAlphabet(Last(p))
    ensures LettersBeforeLast(p + [c])
    ensures Running(lm, p + [c]) == MaxReal(Running(lm, p), RowMax(lm, Last(p)))
  {
    LettersSnoc(p, c);
    var s := p + [c];
    assert s[..|s| - 1] == p;
  }

  lemma RunningSnoc(lm: Oracle, p: seq<int>, c: int)
    requires |p| > 0 && LettersBeforeLast(p) && InAlphabet(Last(p))
    ensures LettersBeforeLast(p + [c])
    ensures Running(lm, p + [c]) == MaxReal(Running(lm, p), RowMax(lm, Last(p)))
    ensures TotalRunning(lm, p + [c]) == TotalRunning(lm, p) + Running(lm, p + [c])
  {
    RunningSnoc1(lm, p, c);
    var s := p + [c];
    assert s[..|s| - 1] == p;
  }

  /** A successful outcome of `n` symbols that follows the law and scores the total of
      the running bests. */
  ghost predicate Explained(lm: Oracle, start: int, r: Decoded, n: nat) {
    r.Decoded? ==>
      && |r.value.selected| == n
      && GreedyLaw(lm, start, r.value.selected)
      && r.value.score == TotalRunning(lm, r.value.selected)
  }

  lemma {:induction false} GreedyStepsFollowLaw(lm: Oracle, start: int, selected: seq<int>, score: real,
                                                chosen: int, maxScore: real, steps: nat)
    requires OnTrack(lm, start, selected, score, chosen, maxScore)
    ensures Explained(lm, start, GreedySteps(lm, selected, score, chosen, maxScore, steps), |selected| + steps)
    decreases steps
  {
    if steps > 0 && InAlphabet(Last(selected)) {
      var next := ScanRow(lm, Last(selected), 0, maxScore, chosen);
      var s := selected + [next.1];
      GreedyStepOnTrack(lm, start, selected, score, chosen, maxScore);
      GreedyStepsFollowLaw(lm, start, s, score + next.0, next.1, next.0, steps - 1);
      assert |s| + (steps - 1) == |selected| + steps;
    }
  }

  /** Appending the expected symbol keeps the law. */
  lemma AppendKeepsLaw(lm: Oracle, start: int, selected: seq<int>, c: int)
    requires GreedyLaw(lm, start, selected) && InAlphabet(Last(selected))
    requires c == Expected(lm, selected)
    ensures GreedyLaw(lm, start, selected + [c])
  {
    var s := selected + [c];
    assert LettersBeforeLast(s);
    forall i | 1 <= i < |s|
      ensures s[i] == Expected(lm, s[..i])
    {
      PrefixOfSnoc(selected, c, i);
      if i == |selected| {
        assert s[..i] == selected;
      } else {
        assert s[i] == selected[i];
      }
    }
  }

  /** The symbol a row scan ends on is the running choice or a letter. */
  lemma ScanRowChoice(lm: Oracle, cur: int, best: real, chosen: int)
    ensures var c := ScanRow(lm, cur, 0, best, chosen).1;
      c == chosen || InAlphabet(c)
  {
    ScanRowSpec(lm, cur, best, chosen);
  }

  /** When the decoder succeeds, in terms of where it stands. */
  lemma {:induction false} GreedyStepsDefined(lm: Oracle, selected: seq<int>, score: real, chosen: int,
                                              maxScore: real, steps: nat)
    requires |selected| > 0
    requires chosen == Nul || InAlphabet(chosen)
    requires |selected| >= 2 ==> Last(selected) == chosen
    ensures var r := GreedySteps(lm, selected, score, chosen, maxScore, steps);
      && (r.Decoded? <==>
            steps == 0
            || (InAlphabet(Last(selected))
                && (steps == 1 || InAlphabet(ScanRow(lm, Last(selected), 0, maxScore, chosen).1))))
      && !r.LengthError?
      && (r.OutOfAlphabet? ==> r.symbol == Last(selected) || r.symbol == Nul)
    decreases steps
  {
    if steps > 0 && InAlphabet(Last(selected)) {
      ScanRowChoice(lm, Last(selected), maxScore, chosen);
      var next := ScanRow(lm, Last(selected), 0, maxScore, chosen);
      var s := selected + [next.1];
      assert Last(s) == next.1;
      GreedyStepsDefined(lm, s, score + next.0, next.1, next.0, steps - 1);
      if steps > 1 && InAlphabet(next.1) {
        ScanRowChoice(lm, next.1, next.0, next.1);
      }
    }
  }

  /** The greedy decoder's contract: it fails with a length error exactly for a negative
      length; it succeeds exactly when every row it consults is a letter's row, which is
      when the start is a letter (if any step is taken) and, from the third symbol on,
      some letter scores above 0 after the start; on success the output has
      `max(length, 1)` symbols, follows `GreedyLaw` from `start`, and its score is the
      total of the running bests. */
  lemma GreedyDecodingSpec(lm: Oracle, start: int, length: int)
    ensures var r := GreedyDecoding(lm, start, length);
      && (r.LengthError? <==> length < 0)
      && (r.Decoded? <==>
            length >= 0 && (length <= 1 || (InAlphabet(start) && (length == 2 || RowMax(lm, start) > 0.0))))
      && (r.OutOfAlphabet? ==> r.symbol == start || r.symbol == Nul)
      && (r.Decoded? ==>
            && |r.value.selected| == (if length > 1 then length else 1)
            && GreedyLaw(lm, start, r.value.selected)
            && r.value.score == TotalRunning(lm, r.value.selected))
  {
    if length >= 0 {
      var steps := if length > 1 then length - 1 else 0;
      GreedyStepsDefined(lm, [start], 0.0, Nul, 0.0, steps);
      assert OnTrack(lm, start, [start], 0.0, Nul, 0.0);
      GreedyStepsFollowLaw(lm, start, [start], 0.0, Nul, 0.0, steps);
      ScanRowSpec(lm, start, 0.0, Nul);
    }
  }

  // ---------------------------------------------------------------------------------
  // Consequences.

  /** The running best never decreases along the output and never drops below 0. */
  lemma {:induction false} RunningMonotone(lm: Oracle, s: seq<int>, i: nat, j: nat)
    requires |s| > 0 && LettersBeforeLast(s)
    requires 1 <= i <= j <= |s|
    ensures 0.0 <= Running(lm, s[..i]) <= Running(lm, s[..j])
    decreases j
  {
    if j > i {
      var p := s[..j];
      assert p[..|p| - 1] == s[..j - 1];
      RunningMonotone(lm, s, i, j - 1);
    } else if i > 1 {
      var p := s[..i];
      assert p[..|p| - 1] == s[..i - 1];
      RunningMonotone(lm, s, i - 1, i - 1);
    }
  }

  lemma {:induction false} TotalRunningNonNegative(lm: Oracle, s: seq<int>)
    requires |s| > 0 && LettersBeforeLast(s)
    ensures TotalRunning(lm, s) >= 0.0
    decreases |s|
  {
    if |s| > 1 {
      assert s[..|s|] == s;
      RunningMonotone(lm, s, |s|, |s|);
      TotalRunningNonNegative(lm, s[..|s| - 1]);
    }
  }

  /** Whenever the decoder succeeds, its score is at least 0. */
  lemma GreedyScoreNonNegative(lm: Oracle, start: int, length: int)
    requires GreedyDecoding(lm, start, length).Decoded?
    ensures GreedyDecoding(lm, start, length).value.score >= 0.0
  {
    GreedyDecodingSpec(lm, start, length);
    TotalRunningNonNegative(lm, GreedyDecoding(lm, start, length).value.selected);
  }

  /** Each appended symbol, declaratively: either the first letter in alphabet order whose
      score is maximal and beats the running best (later letters of equal score are not
      adopted), or, when no letter beats the running best, the previous choice. */
  lemma GreedyStepChoice(lm: Oracle, start: int, s: seq<int>, i: nat)
    requires GreedyLaw(lm, start, s)
    requires 1 <= i < |s|
    ensures var p := s[..i]; var run := Running(lm, p);
      || (&& InAlphabet(s[i])
          && lm(s[i - 1], s[i]) > run
          && (forall d :: InAlphabet(d) && d < s[i] ==> lm(s[i - 1], d) < lm(s[i - 1], s[i]))
          && (forall d :: InAlphabet(d) ==> lm(s[i - 1], d) <= lm(s[i - 1], s[i])))
      || (&& (forall d :: InAlphabet(d) ==> lm(s[i - 1], d) <= run)
          && s[i] == if i == 1 then Nul else s[i - 1])
  {
    var p := s[..i];
    assert Last(p) == s[i - 1];
    assert s[i] == Expected(lm, p);
    var a := ArgMax(lm, s[i - 1]);
    ArgMaxIsFirstBest(lm, s[i - 1]);
    if RowMax(lm, s[i - 1]) > Running(lm, p) {
      assert s[i] == Doc(a);
      forall d | InAlphabet(d)
        ensures lm(s[i - 1], d) <= lm(s[i - 1], s[i])
        ensures d < s[i] ==> lm(s[i - 1], d) < lm(s[i - 1], s[i])
      {
        DocsEnumerateAlphabet(d);
      }
    } else {
      forall d | InAlphabet(d)
        ensures lm(s[i - 1], d) <= Running(lm, p)
      {
        DocsEnumerateAlphabet(d);
      }
    }
  }

  /** NUL is appended only at the second position and only when no letter scores above 0
      after the start; the output then has exactly two symbols. */
  lemma GreedyNulOnlyWhenNothingBeatsZero(lm: Oracle, start: int, length: int, i: nat)
    requires GreedyDecoding(lm, start, length).Decoded?
    requires 1 <= i < |GreedyDecoding(lm, start, length).value.selected|
    requires GreedyDecoding(lm, start, length).value.selected[i] == Nul
    ensures i == 1 && length == 2
    ensures forall d :: InAlphabet(d) ==> lm(start, d) <= 0.0
  {
    GreedyDecodingSpec(lm, start, length);
    GreedyLawNul(lm, start, GreedyDecoding(lm, start, length).value.selected, i);
  }

  /** In any output that follows the law, NUL can only be the second and last symbol, and
      only when no letter scores above 0 after the start. */
  lemma GreedyLawNul(lm: Oracle, start: int, s: seq<int>, i: nat)
    requires GreedyLaw(lm, start, s)
    requires 1 <= i < |s|
    ensures s[i] == Nul ==> i == 1 && |s| == 2 && forall d :: InAlphabet(d) ==> lm(start, d) <= 0.0
  {
    var p := s[..i];
    assert Last(p) == s[i - 1];
    assert s[i] == Expected(lm, p);
    if i > 1 {
      assert InAlphabet(s[i - 1]);
    }
    if i < |s| - 1 {
      assert InAlphabet(s[i]);
    }
    GreedyStepChoice(lm, start, s, i);
    if i == 1 {
      assert s[..1] == [start];
    }
  }

  // ---------------------------------------------------------------------------------
  // Corrected decoder: the running best and choice restart at every position from the
  // first letter, so each step appends the first best letter and adds its own score.

  function GreedyStepsReset(lm: Oracle, selected: seq<int>, score: real, steps: nat): Decoded
    requires |selected| > 0
    decreases steps
  {
    if steps == 0 then Decoded(Sequence(selected, score))
    else if !InAlphabet(Last(selected)) then OutOfAlphabet(Last(selected))
    else
      var cur := Last(selected);
      var next := ScanRow(lm, cur, 1, lm(cur, Doc(0)), Doc(0));
      GreedyStepsReset(lm, selected + [next.1], score + next.0, steps - 1)
  }

  function GreedyDecodingReset(lm: Oracle, start: int, length: int): Decoded {
    if length < 0 then LengthError
    else GreedyStepsReset(lm, [start], 0.0, if length > 1 then length - 1 else 0)
  }

  /** Restarting the scan from the first letter selects the first best letter. */
  lemma ScanRowReset(lm: Oracle, cur: int)
    ensures ScanRow(lm, cur, 1, lm(cur, Doc(0)), Doc(0)) == (RowMax(lm, cur), Doc(ArgMax(lm, cur)))
  {
    ArgMaxIsFirstBest(lm, cur);
    FirstBestFromExists(lm, cur, 1);
    var b :| FirstBestFrom(lm, cur, 1, b);
    ScanRowFindsFirstBest(lm, cur, 1, lm(cur, Doc(0)), Doc(0), b);
    if lm(cur, Doc(b)) > lm(cur, Doc(0)) {
      assert FirstBestFrom(lm, cur, 0, b);
      FirstBestFromUnique(lm, cur, 0, b, ArgMax(lm, cur));
    } else {
      assert FirstBestFrom(lm, cur, 0, 0);
      FirstBestFromUnique(lm, cur, 0, 0, ArgMax(lm, cur));
    }
  }

  /** The first best letter after the last symbol of `p`. */
  ghost function BestNext(lm: Oracle, p: seq<int>): int
    requires |p| > 0
  {
    Doc(ArgMax(lm, Last(p)))
  }

  /** `s` starts with `start` and each later symbol is the first best letter after its
      predecessor. */
  ghost predicate ResetLaw(lm: Oracle, start: int, s: seq<int>) {
    && |s| > 0
    && s[0] == start
    && LettersBeforeLast(s)
    && forall i {:trigger BestNext(lm, s[..i])} :: 1 <= i < |s| ==> s[i] == BestNext(lm, s[..i])
  }

  lemma AppendKeepsResetLaw(lm: Oracle, start: int, selected: seq<int>)
    requires ResetLaw(lm, start, selected) && InAlphabet(Last(selected))
    ensures ResetLaw(lm, start, selected + [BestNext(lm, selected)])
  {
    var s := selected + [BestNext(lm, selected)];
    assert LettersBeforeLast(s);
    forall i | 1 <= i < |s|
      ensures s[i] == BestNext(lm, s[..i])
    {
      PrefixOfSnoc(selected, BestNext(lm, selected), i);
      if i == |selected| {
        assert s[..i] == selected;
      } else {
        assert s[i] == selected[i];
      }
    }
  }

  /** One position of the corrected loop keeps the law and the path score. */
  lemma ResetStep(lm: Oracle, start: int, selected: seq<int>, score: real)
    requires ResetLaw(lm, start, selected) && score == PathScore(lm, selected)
    requires InAlphabet(Last(selected))
    ensures var cur := Last(selected);
      var next := ScanRow(lm, cur, 1, lm(cur, Doc(0)), Doc(0));
      && ResetLaw(lm, start, selected + [next.1])
      && score + next.0 == PathScore(lm, selected + [next.1])
  {
    ScanRowReset(lm, Last(selected));
    AppendKeepsResetLaw(lm, start, selected);
    PathScoreSnoc(lm, selected, BestNext(lm, selected));
  }

  /** A successful outcome of `n` symbols that follows `ResetLaw` and scores its path. */
  ghost predicate ResetExplained(lm: Oracle, start: int, r: Decoded, n: nat) {
    r.Decoded? ==>
      && |r.value.selected| == n
      && ResetLaw(lm, start, r.value.selected)
      && r.value.score == PathScore(lm, r.value.selected)
  }

  lemma {:induction false} GreedyStepsResetFollowLaw(lm: Oracle, start: int, selected: seq<int>, score: real,
                                                     steps: nat)
    requires ResetLaw(lm, start, selected) && score == PathScore(lm, selected)
    ensures ResetExplained(lm, start, GreedyStepsReset(lm, selected, score, steps), |selected| + steps)
    decreases steps
  {
    if steps > 0 && InAlphabet(Last(selected)) {
      var cur := Last(selected);
      var next := ScanRow(lm, cur, 1, lm(cur, Doc(0)), Doc(0));
      var s := selected + [next.1];
      ResetStep(lm, start, selected, score);
      GreedyStepsResetFollowLaw(lm, start, s, score + next.0, steps - 1);
      assert |s| + (steps - 1) == |selected| + steps;
    }
  }

  /** From a letter the corrected loop only appends letters, so it never fails. */
  lemma {:induction false} GreedyStepsResetDefined(lm: Oracle, selected: seq<int>, score: real, steps: nat)
    requires |selected| > 0
    ensures var r := GreedyStepsReset(lm, selected, score, steps);
      && (r.Decoded? <==> steps == 0 || InAlphabet(Last(selected)))
      && (r.OutOfAlphabet? ==> r.symbol == Last(selected))
    decreases steps
  {
    if steps > 0 && InAlphabet(Last(selected)) {
      var cur := Last(selected);
      ScanRowReset(lm, cur);
      var next := ScanRow(lm, cur, 1, lm(cur, Doc(0)), Doc(0));
      var s := selected + [next.1];
      assert Last(s) == next.1;
      GreedyStepsResetDefined(lm, s, score + next.0, steps - 1);
    }
  }

  /** The corrected decoder succeeds for every non-negative length from a letter (and for
      lengths 0 and 1 from any start); each symbol after the first is the first best
      letter after its predecessor, and the score is the path score of the output. */
  lemma GreedyResetSpec(lm: Oracle, start: int, length: int)
    ensures var r := GreedyDecodingReset(lm, start, length);
      && (r.LengthError? <==> length < 0)
      && (r.Decoded? <==> length >= 0 && (length <= 1 || InAlphabet(start)))
      && (r.Decoded? ==>
            && |r.value.selected| == (if length > 1 then length else 1)
            && ResetLaw(lm, start, r.value.selected)
            && r.value.score == PathScore(lm, r.value.selected))
  {
    if length >= 0 {
      var steps := if length > 1 then length - 1 else 0;
      GreedyStepsResetDefined(lm, [start], 0.0, steps);
      GreedyStepsResetFollowLaw(lm, start, [start], 0.0, steps);
    }
  }

  // ---------------------------------------------------------------------------------
  // The two discrepancies of the decoder as written, on concrete oracles.

  /** 5 for 'a' -> 'b', 1 for every pair out of 'b', 0 otherwise. */
  function Skewed(cur: int, next: int): real {
    if cur == 'a' as int && next == 'b' as int then 5.0
    else if cur == 'b' as int then 1.0
    else 0.0
  }

  /** 0 for every pair. */
  function Flat(cur: int, next: int): real {
    0.0
  }

  lemma SkewedRows()
    ensures ArgMax(Skewed, 'a' as int) == 1 && RowMax(Skewed, 'a' as int) == 5.0
    ensures ArgMax(Skewed, 'b' as int) == 0 && RowMax(Skewed, 'b' as int) == 1.0
  {
    assert FirstBestFrom(Skewed, 'a' as int, 0, 1);
    ArgMaxIsFirstBest(Skewed, 'a' as int);
    FirstBestFromUnique(Skewed, 'a' as int, 0, 1, ArgMax(Skewed, 'a' as int));
    assert FirstBestFrom(Skewed, 'b' as int, 0, 0);
    ArgMaxIsFirstBest(Skewed, 'b' as int);
    FirstBestFromUnique(Skewed, 'b' as int, 0, 0, ArgMax(Skewed, 'b' as int));
  }

  /** As written, "abb" is decoded from 'a' with score 10 although its path score is 6:
      the second step adds the first step's running best 5 instead of lm('b','b') = 1. */
  lemma GreedyScoreIsNotPathScore()
    ensures GreedyDecoding(Skewed, 'a' as int, 3)
            == Decoded(Sequence(['a' as int, 'b' as int, 'b' as int], 10.0))
    ensures PathScore(Skewed, ['a' as int, 'b' as int, 'b' as int]) == 6.0
  {
    var (a, b) := ('a' as int, 'b' as int);
    SkewedRows();
    ScanRowSpec(Skewed, a, 0.0, Nul);
    ScanRowSpec(Skewed, b, 5.0, b);
    assert GreedySteps(Skewed, [a], 0.0, Nul, 0.0, 2) == GreedySteps(Skewed, [a, b], 5.0, b, 5.0, 1);
    assert GreedySteps(Skewed, [a, b], 5.0, b, 5.0, 1) == GreedySteps(Skewed, [a, b, b], 10.0, b, 5.0, 0);
    PathScoreSnoc(Skewed, [a], b);
    PathScoreSnoc(Skewed, [a, b], b);
    assert [a] + [b] == [a, b] && [a, b] + [b] == [a, b, b];
  }

  /** The corrected decoder yields "aba" from 'a' on the same oracle, scored with its path
      score 6. */
  lemma GreedyResetScoresPath()
    ensures GreedyDecodingReset(Skewed, 'a' as int, 3)
            == Decoded(Sequence(['a' as int, 'b' as int, 'a' as int], 6.0))
  {
    var (a, b) := ('a' as int, 'b' as int);
    SkewedRows();
    ScanRowReset(Skewed, a);
    ScanRowReset(Skewed, b);
    assert GreedyStepsReset(Skewed, [a], 0.0, 2) == GreedyStepsReset(Skewed, [a, b], 5.0, 1);
    assert GreedyStepsReset(Skewed, [a, b], 5.0, 1) == GreedyStepsReset(Skewed, [a, b, a], 6.0, 0);
  }

  lemma FlatRows(cur: int)
    ensures ArgMax(Flat, cur) == 0 && RowMax(Flat, cur) == 0.0
  {
    assert FirstBestFrom(Flat, cur, 0, 0);
    ArgMaxIsFirstBest(Flat, cur);
    FirstBestFromUnique(Flat, cur, 0, 0, ArgMax(Flat, cur));
  }

  /** As written, with no letter scoring above 0 the decoder appends NUL at the second
      position, and a third position would read the oracle's row for NUL. */
  lemma GreedyAppendsNul()
    ensures GreedyDecoding(Flat, 'a' as int, 2) == Decoded(Sequence(['a' as int, Nul], 0.0))
    ensures GreedyDecoding(Flat, 'a' as int, 3) == OutOfAlphabet(Nul)
  {
    var a := 'a' as int;
    FlatRows(a);
    ScanRowSpec(Flat, a, 0.0, Nul);
    assert GreedySteps(Flat, [a], 0.0, Nul, 0.0, 1) == GreedySteps(Flat, [a, Nul], 0.0, Nul, 0.0, 0);
    assert GreedySteps(Flat, [a], 0.0, Nul, 0.0, 2) == GreedySteps(Flat, [a, Nul], 0.0, Nul, 0.0, 1);
  }

  /** The corrected decoder repeats the first letter on the same oracle. */
  lemma GreedyResetRepeatsFirstLetter()
    ensures GreedyDecodingReset(Flat, 'a' as int, 3)
            == Decoded(Sequence(['a' as int, 'a' as int, 'a' as int], 0.0))
  {
    var a := 'a' as int;
    FlatRows(a);
    ScanRowReset(Flat, a);
    assert GreedyStepsReset(Flat, [a], 0.0, 2) == GreedyStepsReset(Flat, [a, a], 0.0, 1);
    assert GreedyStepsReset(Flat, [a, a], 0.0, 1) == GreedyStepsReset(Flat, [a, a, a], 0.0, 0);
  }
}
