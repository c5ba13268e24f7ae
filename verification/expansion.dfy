/** One beam-search expansion step: `Rule`, `expand_next_seqs` and `expand_all_next_seqs`.

    A hypothesis `best` is extended by each letter the rules admit at position
    `|best.selected|`, in alphabet order, until `expand_size` extensions are collected;
    the `beam_size` best of those are pushed onto the shared queue `next_seqs`. */
module Expansion {
  import opened Alphabet
  import opened Sequences
  import opened Queue

  // ---------------------------------------------------------------------------------
  // Rules.

  /** `Rule`: the shipped rule matches every letter at every position. */
  datatype Rule = Rule {
    predicate Match(pos: int, doc: int) {
      true
    }
  }

  /** The `found` flag of lines 73-79: every rule matches `doc` at `pos`; the scan stops
      at the first rule that does not. */
  function Found(rules: seq<Rule>, pos: int, doc: int): (r: bool)
    ensures r <==> forall i :: 0 <= i < |rules| ==> rules[i].Match(pos, doc)
  {
    if |rules| == 0 then true
    else if !rules[0].Match(pos, doc) then false
    else Found(rules[1..], pos, doc)
  }

  /** Which letters may be appended at which position. */
  type Admits = (int, int) -> bool

  /** The admissibility a list of rules defines. */
  function RulesAdmit(rules: seq<Rule>): Admits {
    (pos: int, doc: int) => Found(rules, pos, doc)
  }

  // ---------------------------------------------------------------------------------
  // Candidate letters (lines 72-88).

  /** `expand_seqs.size() == expand_size`: the comparison converts `expand_size` to an
      unsigned size, so a negative cap is never reached, and a cap of 0 is never reached
      either since the size is at least 1 when it is tested. */
  predicate CapReached(n: nat, expandSize: int) {
    expandSize >= 0 && n == expandSize
  }

  /** The letter loop from index `k` of `docs` on, with the letters `acc` already taken. */
  function CollectLetters(admits: Admits, pos: int, expandSize: int, k: nat, acc: seq<int>): seq<int>
    requires k <= |Docs|
    decreases |Docs| - k
  {
    if k == |Docs| then acc
    else if !admits(pos, Doc(k)) then CollectLetters(admits, pos, expandSize, k + 1, acc)
    else
      var acc' := acc + [Doc(k)];
      if CapReached(|acc'|, expandSize) then acc'
      else CollectLetters(admits, pos, expandSize, k + 1, acc')
  }

  /** The letters whose extensions enter `expand_seqs`, in the order they are pushed. */
  function CandidateLetters(admits: Admits, pos: int, expandSize: int): seq<int> {
    CollectLetters(admits, pos, expandSize, 0, [])
  }

  /** Reference: every admitted letter from index `k` of `docs` on, in alphabet order. */
  function AdmittedFrom(admits: Admits, pos: int, k: nat): seq<int>
    requires k <= |Docs|
    decreases |Docs| - k
  {
    if k == |Docs| then []
    else (if admits(pos, Doc(k)) then [Doc(k)] else []) + AdmittedFrom(admits, pos, k + 1)
  }

  /** The first `expandSize` elements of `s` when `expandSize` is a positive cap, all of
      `s` otherwise. */
  function Take(s: seq<int>, expandSize: int): seq<int> {
    if 1 <= expandSize < |s| then s[..expandSize] else s
  }

  /** `Take` keeps a prefix of the capped length. */
  lemma TakeIsCappedPrefix(s: seq<int>, expandSize: int)
    ensures |Take(s, expandSize)| == if 1 <= expandSize < |s| then expandSize else |s|
    ensures forall i :: 0 <= i < |Take(s, expandSize)| ==> Take(s, expandSize)[i] == s[i]
  {
  }

  /** Every letter of `docs` from index `k` on. */
  function LettersFrom(k: nat): seq<int>
    requires k <= |Docs|
    decreases |Docs| - k
  {
    if k == |Docs| then [] else [Doc(k)] + LettersFrom(k + 1)
  }

  lemma {:induction false} CollectLettersIsTake(admits: Admits, pos: int, expandSize: int, k: nat, acc: seq<int>)
    requires k <= |Docs|
    requires expandSize < 1 || |acc| < expandSize
    ensures CollectLetters(admits, pos, expandSize, k, acc) == Take(acc + AdmittedFrom(admits, pos, k), expandSize)
    decreases |Docs| - k
  {
    if k == |Docs| {
      assert acc + [] == acc;
    } else if !admits(pos, Doc(k)) {
      CollectLettersIsTake(admits, pos, expandSize, k + 1, acc);
    } else if CapReached(|acc| + 1, expandSize) {
      CappedTake(acc + [Doc(k)], AdmittedFrom(admits, pos, k + 1), expandSize);
      AdmittedStep(admits, pos, k, acc);
    } else {
      CollectLettersIsTake(admits, pos, expandSize, k + 1, acc + [Doc(k)]);
      AdmittedStep(admits, pos, k, acc);
    }
  }

  /** An admitted letter moves from the admitted tail to the taken prefix. */
  lemma AdmittedStep(admits: Admits, pos: int, k: nat, acc: seq<int>)
    requires k < |Docs| && admits(pos, Doc(k))
    ensures acc + AdmittedFrom(admits, pos, k) == (acc + [Doc(k)]) + AdmittedFrom(admits, pos, k + 1)
  {
  }

  /** Once the taken letters reach the cap, nothing after them is kept. */
  lemma CappedTake(acc: seq<int>, later: seq<int>, expandSize: int)
    requires 1 <= expandSize == |acc|
    ensures Take(acc + later, expandSize) == acc
  {
    if |later| > 0 {
      assert (acc + later)[..expandSize] == acc;
    } else {
      assert acc + later == acc;
    }
  }

  /** The candidates are the first `expandSize` admitted letters in alphabet order, or all
      of them when `expandSize` is not positive. */
  lemma CandidatesAreFirstAdmitted(admits: Admits, pos: int, expandSize: int)
    ensures CandidateLetters(admits, pos, expandSize) == Take(AdmittedFrom(admits, pos, 0), expandSize)
  {
    CollectLettersIsTake(admits, pos, expandSize, 0, []);
    assert [] + AdmittedFrom(admits, pos, 0) == AdmittedFrom(admits, pos, 0);
  }

  /** The admitted letters are exactly the alphabet letters the rules admit, each once and
      in increasing order. */
  lemma {:induction false} AdmittedFromMembers(admits: Admits, pos: int, k: nat)
    requires k <= |Docs|
    ensures forall d :: d in AdmittedFrom(admits, pos, k)
                        <==> 'a' as int + k <= d <= 'z' as int && admits(pos, d)
    ensures forall i, j :: 0 <= i < j < |AdmittedFrom(admits, pos, k)|
                           ==> AdmittedFrom(admits, pos, k)[i] < AdmittedFrom(admits, pos, k)[j]
    decreases |Docs| - k
  {
    if k < |Docs| {
      AdmittedFromMembers(admits, pos, k + 1);
      var s := AdmittedFrom(admits, pos, k);
      var t := AdmittedFrom(admits, pos, k + 1);
      forall d
        ensures d in s <==> 'a' as int + k <= d <= 'z' as int && admits(pos, d)
      {
        if d == Doc(k) {
          if admits(pos, d) {
            assert s[0] == d;
          }
        }
      }
      forall i, j | 0 <= i < j < |s|
        ensures s[i] < s[j]
      {
        if admits(pos, Doc(k)) {
          assert s[j] == t[j - 1];
          if i > 0 {
            assert s[i] == t[i - 1];
          } else {
            assert t[j - 1] in t;
          }
        } else {
          assert s == t;
        }
      }
    }
  }

  /** A letter rejected by the rules is never a candidate, and every candidate is an
      admitted letter. */
  lemma CandidatesAreAdmitted(admits: Admits, pos: int, expandSize: int, d: int)
    ensures d in CandidateLetters(admits, pos, expandSize) ==> InAlphabet(d) && admits(pos, d)
  {
    CandidatesAreFirstAdmitted(admits, pos, expandSize);
    AdmittedFromMembers(admits, pos, 0);
    var all := AdmittedFrom(admits, pos, 0);
    var c := Take(all, expandSize);
    TakeIsCappedPrefix(all, expandSize);
    if d in c {
      var i :| 0 <= i < |c| && c[i] == d;
      assert all[i] in all;
    }
  }

  /** Capping only ever drops letters after the last candidate: an admitted letter that is
      not a candidate comes after every candidate, and is only left out when the cap was
      reached. */
  lemma UncappedAdmittedAreCandidates(admits: Admits, pos: int, expandSize: int, d: int)
    requires InAlphabet(d) && admits(pos, d)
    ensures var c := CandidateLetters(admits, pos, expandSize);
      d !in c ==> 1 <= expandSize == |c| && forall i :: 0 <= i < |c| ==> c[i] < d
  {
    CandidatesAreFirstAdmitted(admits, pos, expandSize);
    AdmittedFromMembers(admits, pos, 0);
    var all := AdmittedFrom(admits, pos, 0);
    var c := Take(all, expandSize);
    TakeIsCappedPrefix(all, expandSize);
    assert d in all;
    var j :| 0 <= j < |all| && all[j] == d;
    if j < |c| {
      assert c[j] == d;
    } else {
      forall i | 0 <= i < |c|
        ensures c[i] < d
      {
        assert c[i] == all[i];
      }
    }
  }

  lemma {:induction false} AllAdmittedAreLetters(admits: Admits, pos: int, k: nat)
    requires k <= |Docs|
    requires forall d :: InAlphabet(d) ==> admits(pos, d)
    ensures AdmittedFrom(admits, pos, k) == LettersFrom(k)
    decreases |Docs| - k
  {
    if k < |Docs| {
      AllAdmittedAreLetters(admits, pos, k + 1);
    }
  }

  lemma {:induction false} LettersFromIndex(k: nat)
    requires k <= |Docs|
    ensures |LettersFrom(k)| == |Docs| - k
    ensures forall i :: 0 <= i < |LettersFrom(k)| ==> LettersFrom(k)[i] == Doc(k + i)
    decreases |Docs| - k
  {
    if k < |Docs| {
      LettersFromIndex(k + 1);
    }
  }

  /** With the shipped rules every letter is admitted everywhere, so the candidates are
      the first `expandSize` letters of the alphabet (all 26 when `expandSize` is not a
      positive cap). */
  lemma ShippedRulesAdmitEveryLetter(rules: seq<Rule>, pos: int, expandSize: int)
    ensures forall d :: InAlphabet(d) ==> RulesAdmit(rules)(pos, d)
    ensures var c := CandidateLetters(RulesAdmit(rules), pos, expandSize);
      && |c| == (if 1 <= expandSize < |Docs| then expandSize else |Docs|)
      && forall i :: 0 <= i < |c| ==> c[i] == Doc(i)
  {
    AllAdmittedAreLetters(RulesAdmit(rules), pos, 0);
    LettersFromIndex(0);
    CandidatesAreFirstAdmitted(RulesAdmit(rules), pos, expandSize);
    TakeIsCappedPrefix(LettersFrom(0), expandSize);
  }

  // ---------------------------------------------------------------------------------
  // Extensions and the expansion step.

  /** The extensions of `best` by `letters`, in the same order. */
  function Extensions(lm: Oracle, best: Sequence, letters: seq<int>): (r: seq<Sequence>)
    requires Expandable(best)
    ensures |r| == |letters|
  {
    seq(|letters|, i requires 0 <= i < |letters| => Extend(lm, best, letters[i]))
  }

  /** `expand_seqs` after the letter loop: the extensions of `best` by its candidates. */
  function Pool(lm: Oracle, best: Sequence, expandSize: int, admits: Admits): multiset<Sequence>
    requires Expandable(best)
  {
    multiset(Extensions(lm, best, CandidateLetters(admits, |best.selected|, expandSize)))
  }

  /** Every element of the pool is `best` with one admitted letter appended and that
      transition's score added. */
  lemma PoolElementsExtendBest(lm: Oracle, best: Sequence, expandSize: int, admits: Admits, s: Sequence)
    requires Expandable(best)
    requires s in Pool(lm, best, expandSize, admits)
    ensures exists d ::
      && InAlphabet(d) && admits(|best.selected|, d)
      && s.selected == best.selected + [d]
      && s.score == best.score + lm(Last(best.selected), d)
  {
    var c := CandidateLetters(admits, |best.selected|, expandSize);
    var e := Extensions(lm, best, c);
    var i :| 0 <= i < |e| && e[i] == s;
    CandidatesAreAdmitted(admits, |best.selected|, expandSize, c[i]);
  }

  /** The pool holds one extension per candidate letter. */
  lemma PoolSize(lm: Oracle, best: Sequence, expandSize: int, admits: Admits)
    requires Expandable(best)
    ensures |Pool(lm, best, expandSize, admits)| == |CandidateLetters(admits, |best.selected|, expandSize)|
  {
  }

  /** `expand_next_seqs(best_seq, expand_size, beam_size, next_seqs, rules)`: the queue
      grows by a top-`beamSize` choice from the pool. */
  method ExpandNextSeqs(lm: Oracle, best: Sequence, expandSize: int, beamSize: int,
                        nextSeqs: multiset<Sequence>, rules: seq<Rule>)
    returns (nextSeqs': multiset<Sequence>)
    requires Expandable(best)
    ensures nextSeqs <= nextSeqs'
    ensures TakesTop(nextSeqs' - nextSeqs, Pool(lm, best, expandSize, RulesAdmit(rules)), beamSize)
  {
    var letters := CandidateLetters(RulesAdmit(rules), |best.selected|, expandSize);
    var expandSeqs := multiset(Extensions(lm, best, letters));
    nextSeqs' := PushBest(expandSeqs, beamSize, nextSeqs);
  }

  /** The loop of lines 91-93: the `beamSize` best of `expandSeqs` are pushed onto the
      queue, and nothing already in it leaves. */
  method PushBest(expandSeqs: multiset<Sequence>, beamSize: int, nextSeqs: multiset<Sequence>)
    returns (nextSeqs': multiset<Sequence>)
    ensures nextSeqs <= nextSeqs'
    ensures TakesTop(nextSeqs' - nextSeqs, expandSeqs, beamSize)
  {
    var taken, _ := PopTop(expandSeqs, beamSize);
    nextSeqs' := nextSeqs + multiset(taken);
    assert nextSeqs' - nextSeqs == multiset(taken);
  }

  /** The candidates' scores are the path scores of their symbols when `best`'s is. */
  lemma PoolKeepsPathScore(lm: Oracle, best: Sequence, expandSize: int, admits: Admits, s: Sequence)
    requires Expandable(best)
    requires best.score == PathScore(lm, best.selected)
    requires s in Pool(lm, best, expandSize, admits)
    ensures s.score == PathScore(lm, s.selected)
  {
    PoolElementsExtendBest(lm, best, expandSize, admits, s);
    var d :| s.selected == best.selected + [d] && s.score == best.score + lm(Last(best.selected), d);
    assert s == Extend(lm, best, d);
    ExtendKeepsPathScore(lm, best, d);
  }

  /** The union of the parts. */
  function Union(parts: seq<multiset<Sequence>>): multiset<Sequence> {
    if |parts| == 0 then multiset{} else Union(parts[..|parts| - 1]) + parts[|parts| - 1]
  }

  lemma UnionSnoc(parts: seq<multiset<Sequence>>, part: multiset<Sequence>)
    ensures Union(parts + [part]) == Union(parts) + part
  {
    assert (parts + [part])[..|parts|] == parts;
  }

  /** `part` is what `expand_next_seqs` may push for `best`. */
  ghost predicate Contributes(lm: Oracle, best: Sequence, expandSize: int, beamSize: int, rules: seq<Rule>,
                              part: multiset<Sequence>) {
    Expandable(best) && TakesTop(part, Pool(lm, best, expandSize, RulesAdmit(rules)), beamSize)
  }

  /** The first `n` hypotheses of the frontier each contributed the matching part. */
  ghost predicate AllContribute(lm: Oracle, bestSeqs: seq<Sequence>, expandSize: int, beamSize: int,
                                rules: seq<Rule>, parts: seq<multiset<Sequence>>, n: nat) {
    n <= |bestSeqs| && n <= |parts|
    && forall i :: 0 <= i < n ==> Contributes(lm, bestSeqs[i], expandSize, beamSize, rules, parts[i])
  }

  lemma AllContributeSnoc(lm: Oracle, bestSeqs: seq<Sequence>, expandSize: int, beamSize: int,
                          rules: seq<Rule>, parts: seq<multiset<Sequence>>, part: multiset<Sequence>)
    requires |parts| < |bestSeqs|
    requires AllContribute(lm, bestSeqs, expandSize, beamSize, rules, parts, |parts|)
    requires Contributes(lm, bestSeqs[|parts|], expandSize, beamSize, rules, part)
    ensures AllContribute(lm, bestSeqs, expandSize, beamSize, rules, parts + [part], |parts| + 1)
  {
    var ps := parts + [part];
    forall i | 0 <= i < |ps|
      ensures Contributes(lm, bestSeqs[i], expandSize, beamSize, rules, ps[i])
    {
      if i < |parts| {
        assert ps[i] == parts[i];
      }
    }
  }

  /** `expand_all_next_seqs`: each hypothesis of the frontier, in order, contributes a
      top-`beamSize` choice of its own pool; nothing leaves the queue. */
  method ExpandAllNextSeqs(lm: Oracle, bestSeqs: seq<Sequence>, expandSize: int, beamSize: int,
                           nextSeqs: multiset<Sequence>, rules: seq<Rule>)
    returns (nextSeqs': multiset<Sequence>, ghost parts: seq<multiset<Sequence>>)
    requires forall j :: 0 <= j < |bestSeqs| ==> Expandable(bestSeqs[j])
    ensures nextSeqs <= nextSeqs'
    ensures |parts| == |bestSeqs|
    ensures nextSeqs' == nextSeqs + Union(parts)
    ensures forall j :: 0 <= j < |bestSeqs| ==>
              Contributes(lm, bestSeqs[j], expandSize, beamSize, rules, parts[j])
  {
    nextSeqs', parts := nextSeqs, [];
    for j := 0 to |bestSeqs|
      invariant |parts| == j
      invariant nextSeqs' == nextSeqs + Union(parts)
      invariant AllContribute(lm, bestSeqs, expandSize, beamSize, rules, parts, j)
    {
      var grown := ExpandNextSeqs(lm, bestSeqs[j], expandSize, beamSize, nextSeqs', rules);
      ghost var part := grown - nextSeqs';
      UnionSnoc(parts, part);
      AllContributeSnoc(lm, bestSeqs, expandSize, beamSize, rules, parts, part);
      parts := parts + [part];
      nextSeqs' := grown;
    }
  }
}
