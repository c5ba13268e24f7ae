/** The `Sequence` hypothesis value: a list of selected symbols and its cumulative score. */
module Sequences {
  import opened Alphabet

  /** A (partial) decoded string and its score. */
  datatype Sequence = Sequence(selected: seq<int>, score: real)

  /** `operator<`: hypotheses are ordered by score alone. */
  predicate Less(a: Sequence, b: Sequence) {
    a.score < b.score
  }

  function Last(s: seq<int>): int
    requires |s| > 0
  {
    s[|s| - 1]
  }

  /** The score a string earns under `lm`: the sum of the oracle over its adjacent pairs
      (0 for fewer than two symbols). */
  function PathScore(lm: Oracle, s: seq<int>): real
    decreases |s|
  {
    if |s| <= 1 then 0.0
    else PathScore(lm, s[..|s| - 1]) + lm(s[|s| - 2], s[|s| - 1])
  }

  /** `lm(s.selected.back(), d)` reads a row of the score table: the hypothesis is
      non-empty and ends in a letter. */
  predicate Expandable(s: Sequence) {
    |s.selected| > 0 && InAlphabet(Last(s.selected))
  }

  /** One-symbol extension of a hypothesis: `d` appended, and the transition score from
      its last symbol added. */
  function Extend(lm: Oracle, best: Sequence, d: int): Sequence
    requires Expandable(best)
  {
    Sequence(best.selected + [d], best.score + lm(Last(best.selected), d))
  }

  /** `operator<` is a strict weak ordering, which the priority queue relies on:
      irreflexive, transitive, and with transitive incomparability (equal scores). */
  lemma LessIsStrictWeakOrder(a: Sequence, b: Sequence, c: Sequence)
    ensures !Less(a, a)
    ensures Less(a, b) && Less(b, c) ==> Less(a, c)
    ensures !Less(a, b) && !Less(b, a) && !Less(b, c) && !Less(c, b) ==> !Less(a, c) && !Less(c, a)
  {
  }

  /** Appending a symbol adds the transition into it to the path score. */
  lemma PathScoreSnoc(lm: Oracle, s: seq<int>, d: int)
    requires |s| > 0
    ensures PathScore(lm, s + [d]) == PathScore(lm, s) + lm(Last(s), d)
  {
    var t := s + [d];
    assert t[..|t| - 1] == s;
  }

  /** Extending a hypothesis whose score is the path score of its symbols yields another
      such hypothesis. */
  lemma ExtendKeepsPathScore(lm: Oracle, best: Sequence, d: int)
    requires Expandable(best)
    requires best.score == PathScore(lm, best.selected)
    ensures Extend(lm, best, d).score == PathScore(lm, Extend(lm, best, d).selected)
  {
    PathScoreSnoc(lm, best.selected, d);
  }
}
