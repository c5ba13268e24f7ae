/** `update_best_seqs`: the next frontier is popped off the candidate queue. */
module Pruning {
  import opened Sequences
  import opened Queue

  /** The outcome of `update_best_seqs(next_seqs, best_seqs, beam_size)`: the new frontier
      and what stays in the queue, or the `std::length_error` that `reserve` throws for a
      negative `beam_size` (converted to an unsigned size beyond `max_size()`); the old
      frontier has been cleared and the queue is untouched in that case. */
  datatype Update = Updated(bestSeqs: seq<Sequence>, nextSeqs: multiset<Sequence>) | LengthError

  /** The old frontier is discarded; the new one holds the `beamSize` best hypotheses of
      the queue (all of them if there are fewer) from best to worst, and exactly those
      leave the queue. */
  method UpdateBestSeqs(nextSeqs: multiset<Sequence>, beamSize: int) returns (r: Update)
    ensures r.LengthError? <==> beamSize < 0
    ensures r.Updated? ==>
      && |r.bestSeqs| == (if beamSize < |nextSeqs| then beamSize else |nextSeqs|)
      && multiset(r.bestSeqs) + r.nextSeqs == nextSeqs
      && NonIncreasing(r.bestSeqs)
      && forall i, b :: 0 <= i < |r.bestSeqs| && b in r.nextSeqs ==> b.score <= r.bestSeqs[i].score
  {
    if beamSize < 0 {
      return LengthError;
    }
    var bestSeqs, rest := PopTop(nextSeqs, beamSize);
    r := Updated(bestSeqs, rest);
  }
}
