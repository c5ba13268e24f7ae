/** `SeqPQ`, the max-priority queue of hypotheses, as a multiset.

    `std::priority_queue<Sequence>` exposes the greatest element under `operator<`, that is
    one of highest score; which of several equal-score elements is on top is left open
    here, so every statement below holds for any choice among them. */
module Queue {
  import opened Sequences

  /** `s` may be `top()` of `q`: it is in `q` and nothing in `q` is greater. */
  predicate IsTop(s: Sequence, q: multiset<Sequence>) {
    s in q && forall t :: t in q ==> !Less(s, t)
  }

  /** A non-empty queue has a top. */
  lemma {:induction false} TopExists(q: multiset<Sequence>)
    requires |q| > 0
    ensures exists s :: IsTop(s, q)
    decreases |q|
  {
    var x :| x in q;
    var rest := q - multiset{x};
    if |rest| == 0 {
      assert q == multiset{x};
      assert IsTop(x, q);
    } else {
      TopExists(rest);
      var t :| IsTop(t, rest);
      assert q == rest + multiset{x};
      if Less(t, x) {
        assert IsTop(x, q);
      } else {
        assert IsTop(t, q);
      }
    }
  }

  /** `top()` followed by `pop()`: one element of highest score leaves the queue. */
  method Pop(q: multiset<Sequence>) returns (top: Sequence, rest: multiset<Sequence>)
    requires |q| > 0
    ensures IsTop(top, q)
    ensures rest == q - multiset{top} && |rest| == |q| - 1
  {
    TopExists(q);
    top :| IsTop(top, q);
    rest := q - multiset{top};
  }

  /** How many elements a loop `for (i = 0; i < k && !q.empty(); ++i, q.pop())` takes
      from a queue of `n` elements. */
  function TopCount(k: int, n: nat): nat {
    if k <= 0 then 0 else if k < n then k else n
  }

  /** Scores never increase along `s`. */
  ghost predicate NonIncreasing(s: seq<Sequence>) {
    forall i, j :: 0 <= i < j < |s| ==> s[j].score <= s[i].score
  }

  /** `taken` is a possible outcome of taking the top `k` elements of `q`: a sub-multiset
      of the right size none of whose scores is below a score left behind. */
  ghost predicate TakesTop(taken: multiset<Sequence>, q: multiset<Sequence>, k: int) {
    && taken <= q
    && |taken| == TopCount(k, |q|)
    && forall a, b :: a in taken && b in q - taken ==> b.score <= a.score
  }

  /** Every score of `taken` is at least every score of `rest`. */
  ghost predicate Dominates(taken: seq<Sequence>, rest: multiset<Sequence>) {
    forall i, b :: 0 <= i < |taken| && b in rest ==> b.score <= taken[i].score
  }

  /** Appending the top of the remaining queue keeps the popped prefix ordered and above
      what remains. */
  lemma PopStep(taken: seq<Sequence>, rest: multiset<Sequence>, top: Sequence)
    requires NonIncreasing(taken) && Dominates(taken, rest)
    requires IsTop(top, rest)
    ensures NonIncreasing(taken + [top]) && Dominates(taken + [top], rest - multiset{top})
  {
    var t := taken + [top];
    forall i, j | 0 <= i < j < |t|
      ensures t[j].score <= t[i].score
    {
      if j < |taken| {
        assert t[i] == taken[i] && t[j] == taken[j];
      } else {
        assert t[i] == taken[i];
      }
    }
    forall i, b | 0 <= i < |t| && b in rest - multiset{top}
      ensures b.score <= t[i].score
    {
      assert b in rest;
      if i < |taken| {
        assert t[i] == taken[i];
      }
    }
  }

  /** A popped sequence that dominates the remainder is a top-`k` choice. */
  lemma DominatesTakesTop(taken: seq<Sequence>, rest: multiset<Sequence>, q: multiset<Sequence>, k: int)
    requires multiset(taken) + rest == q && Dominates(taken, rest)
    requires |taken| == TopCount(k, |q|)
    ensures TakesTop(multiset(taken), q, k)
  {
    assert q - multiset(taken) == rest;
    forall a, b | a in multiset(taken) && b in rest
      ensures b.score <= a.score
    {
      var j :| 0 <= j < |taken| && taken[j] == a;
    }
  }

  /** The loop `for (i = 0; i < k && !q.empty(); ++i, q.pop()) out.push(q.top())`:
      `taken` lists the popped elements in popping order and `rest` is what stays. */
  method PopTop(q: multiset<Sequence>, k: int) returns (taken: seq<Sequence>, rest: multiset<Sequence>)
    ensures |taken| == TopCount(k, |q|)
    ensures multiset(taken) + rest == q
    ensures NonIncreasing(taken)
    ensures Dominates(taken, rest)
    ensures TakesTop(multiset(taken), q, k)
  {
    taken, rest := [], q;
    var i := 0;
    while i < k && |rest| > 0
      invariant i == |taken| && (i == 0 || i <= k)
      invariant multiset(taken) + rest == q
      invariant NonIncreasing(taken) && Dominates(taken, rest)
      decreases |rest|
    {
      var top, rest' := Pop(rest);
      PopStep(taken, rest, top);
      taken, rest := taken + [top], rest';
      i := i + 1;
    }
    TopCountStop(k, i, |q|, |rest|);
    DominatesTakesTop(taken, rest, q, k);
  }

  /** `TopCount` is the count the loop's guard allows. */
  lemma TopCountStop(k: int, i: nat, n: nat, m: nat)
    requires i + m == n && (i == 0 || i <= k)
    requires !(i < k && m > 0)
    ensures i == TopCount(k, n)
  {
  }
}
