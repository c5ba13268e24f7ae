# Beam search over a letter alphabet, in Dafny

This project models the decoding core of `beam-search/main.cc`. A decoder builds a
string over the alphabet `docs` = `'a'..'z'` one symbol at a time. A language-model
oracle `lm(cur, next)` scores each transition.

- **Hypotheses.** `Sequence` (`Sequences.Sequence`) holds the selected symbols and a
  cumulative score. `operator<` compares scores only.
- **Greedy decoder.** `greedy_decoding` (`Greedy.GreedyDecoding`) is the one-pass
  decoder, modelled exactly as written:
  - the running best `max_score` and running choice `chosen` start at 0 and NUL and are
    never reset between positions;
  - within a row, a letter is adopted only when it scores strictly more than the
    running best;
  - at every position the current `chosen` is appended and the current `max_score` is
    added to the score.

  A negative length makes `reserve` throw `length_error`. A step whose last symbol is
  not a letter would read an undefined row of the score table. Both are explicit
  outcomes of `Greedy.Decoded`.
- **Rules.** `Rule::Match` (`Expansion.Rule`) decides which letters may be appended at a
  position. The shipped rule admits everything.
- **Expansion.** `expand_next_seqs` (`Expansion.ExpandNextSeqs`) works in two steps:
  1. It collects the extensions of one hypothesis by the admitted letters, in alphabet
     order, stopping once `expand_size` of them are collected.
  2. It pushes the `beam_size` best of those onto the shared queue.

  `expand_all_next_seqs` (`Expansion.ExpandAllNextSeqs`) does this for every hypothesis
  of the frontier.
- **Pruning.** `update_best_seqs` (`Pruning.UpdateBestSeqs`) replaces the frontier with
  the `beam_size` best queue entries.

The priority queue `SeqPQ` is a multiset (`Queue`). Its `top()` may be any element of
maximal score. The oracle is a parameter (`Alphabet.Oracle`), and scores are reals.

Each operation is checked against an independent reference:
- The greedy output is characterised without loops by `Greedy.GreedyLaw`. Each symbol is
  what the first best letter of its row and the running best predict. The score is the
  sum of the running bests.
- The expansion candidates are characterised as a prefix of the admitted letters in
  alphabet order (`Expansion.AdmittedFrom`).
- Popping from the queue is characterised as a top-`k` choice (`Queue.TakesTop`).

Three behaviours of the code are easy to overlook:
- `greedy_decoding` throws `length_error` for a negative length, and reads outside the
  score table once NUL has been appended.
- Expansion keeps the first `expand_size` admitted letters in alphabet order, then the
  `beam_size` best of those. It does not rank all letters by score.
- `beam_size == 0` keeps nothing and is not an error. Only a negative `beam_size`
  throws, through `reserve`, and only in `update_best_seqs`.

## Model

| member | source | states |
|---|---|---|
| Sequences.LessIsStrictWeakOrder | beam-search/main.cc:39 | `operator<` compares scores only. It is irreflexive and transitive, and equal scores are mutually incomparable, so it is the strict weak order the priority queue needs |
| Sequences.ExtendKeepsPathScore | beam-search/main.cc:82-85 | An extension appends `d` and adds `lm(last, d)`. If a hypothesis's score is the sum of its transitions, so is its extension's |
| Queue.TopExists | beam-search/main.cc:43 | Every non-empty queue has an element that no other element is greater than |
| Queue.Pop | beam-search/main.cc:91-93 | `top()` is an element of the queue with maximal score. `pop()` removes exactly one copy of it |
| Queue.PopTop | beam-search/main.cc:106-108 | The loop `i < k and not empty` pops `min(max(k,0), size)` elements, with non-increasing scores. None scores below anything left, and popped plus remaining is the original queue |
| Greedy.ScanRowFindsFirstBest | beam-search/main.cc:54-60 | The strict-`>` scan over `docs` ends on the first letter of maximal score when that score beats the running best. Otherwise it leaves `(max_score, chosen)` unchanged, so a later letter of equal score is never adopted |
| Greedy.ScanRowSpec | beam-search/main.cc:54-60 | A whole-row scan gives the row maximum and its first letter when the maximum beats the running best, and the unchanged running pair otherwise |
| Greedy.GreedyStepsDefined | beam-search/main.cc:53-63 | The position loop succeeds exactly when the last symbol is a letter at every step. It can only fail on the last symbol or on NUL |
| Greedy.GreedyStepsFollowLaw | beam-search/main.cc:53-63 | Each loop iteration keeps the characterisation: the appended symbol is the predicted one, `max_score` is the running best, and the score is the total of the running bests |
| Greedy.GreedyDecodingSpec | beam-search/main.cc:45-65 | `length_error` exactly when `length < 0`. Success exactly when the start is a letter (if a step is taken) and, for three symbols or more, some letter scores above 0 after the start. On success: `max(length,1)` symbols, starting with `start`, following `GreedyLaw`, scored by the sum of the running bests |
| Greedy.RunningMonotone | beam-search/main.cc:52-60 | `max_score` never decreases from one position to the next and never drops below 0 |
| Greedy.GreedyScoreNonNegative | beam-search/main.cc:52-62 | A successful greedy result never has a negative score |
| Greedy.GreedyStepChoice | beam-search/main.cc:54-61 | Each appended symbol is either the first letter, in alphabet order, of maximal score (beating the running best and strictly above every earlier letter) or, when no letter beats the running best, the previous choice (NUL at the first step) |
| Greedy.GreedyNulOnlyWhenNothingBeatsZero | beam-search/main.cc:51-61 | NUL appears in a successful output only as its second and last symbol, and only when no letter scores above 0 after the start |
| Greedy.GreedyScoreIsNotPathScore | beam-search/main.cc:62 | As written, an oracle exists under which "abb" is decoded from 'a' with score 10 while its transitions sum to 6 |
| Greedy.GreedyAppendsNul | beam-search/main.cc:51-61 | As written, under an all-zero oracle length 2 appends NUL, and length 3 would read NUL's row |
| Greedy.GreedyResetSpec | beam-search/main.cc:45-65 | Corrected decoder, with the running pair restarted at every position: it succeeds for every non-negative length from a letter. Each symbol is the first best letter after its predecessor, and the score is the sum of its transitions |
| Greedy.GreedyResetScoresPath | beam-search/main.cc:62 | The corrected decoder yields "aba" with score 6 on the oracle that shows the first finding |
| Greedy.GreedyResetRepeatsFirstLetter | beam-search/main.cc:51-61 | The corrected decoder yields "aaa" with score 0 on the all-zero oracle |
| Expansion.Found | beam-search/main.cc:73-79 | `found` holds exactly when every rule matches the letter at the position |
| Expansion.ShippedRulesAdmitEveryLetter | beam-search/main.cc:29 | The shipped `Rule::Match` admits every letter. The candidates are then 'a', 'b', … in order: `expand_size` of them when it is between 1 and 25, all 26 otherwise |
| Expansion.CandidatesAreFirstAdmitted | beam-search/main.cc:72-88 | The letter loop's candidates are the first `expand_size` admitted letters in alphabet order. There is no cap when `expand_size` is 0 or negative, since the unsigned comparison is then never true |
| Expansion.AdmittedFromMembers | beam-search/main.cc:72-80 | The reference list holds exactly the admitted letters, each once, in increasing order |
| Expansion.CandidatesAreAdmitted | beam-search/main.cc:73-80 | A letter a rule rejects is never a candidate. Every candidate is an admitted letter |
| Expansion.UncappedAdmittedAreCandidates | beam-search/main.cc:87 | An admitted letter is left out only when the cap was reached (`expand_size` ≥ 1 candidates), and then it follows every candidate in alphabet order |
| Expansion.PoolElementsExtendBest | beam-search/main.cc:82-85 | Every pushed candidate is `best.selected + [d]` for an admitted letter `d`, with score `best.score + lm(last, d)` |
| Expansion.PoolSize | beam-search/main.cc:72-88 | The candidate pool holds one extension per candidate letter |
| Expansion.PoolKeepsPathScore | beam-search/main.cc:84 | If `best`'s score is the sum of its transitions, so is every candidate's |
| Expansion.ExpandNextSeqs | beam-search/main.cc:67-94 | `next_seqs` only grows. What it gains is a top-`beam_size` choice from the candidate pool: `min(max(beam_size,0), pool size)` candidates, none scoring below a candidate left out |
| Expansion.PushBest | beam-search/main.cc:91-93 | The push loop leaves everything already queued in place and adds a top-`beam_size` choice of `expand_seqs`: `min(max(beam_size,0), size)` of its elements, none scoring below one left behind |
| Expansion.ExpandAllNextSeqs | beam-search/main.cc:96-101 | `next_seqs` only grows, by the union of one contribution per frontier hypothesis. Each contribution is a top-`beam_size` choice from that hypothesis's pool |
| Pruning.UpdateBestSeqs | beam-search/main.cc:103-109 | `length_error` exactly when `beam_size < 0`. Otherwise the old frontier is discarded and the new one holds `min(beam_size, next_seqs.size())` entries in non-increasing score order. None scores below an entry left in the queue, and the queue loses exactly those entries |

## Left out

- `main` (beam-search/main.cc:132-134) only returns 0.
- The commented-out `beam_decoding` (beam-search/main.cc:111-130) is not compiled code.
- `Rule::Update` has an empty body and is never called.
- The score table `log_p_language_model` and the index arithmetic in `lm` are not
  modelled. The table is never filled in the source. The model takes `lm` as an
  arbitrary total function `Alphabet.Oracle`. The greedy decoder reports a row read
  outside the alphabet as `OutOfAlphabet`. Expansion requires the hypothesis it
  extends to end in a letter (`Sequences.Expandable`), so its `lm` calls read a row of
  the table.
- IEEE doubles: scores are exact reals. Rounding, NaN and infinities are not modelled.
- The order of equal-score elements in `std::priority_queue` is unspecified.
  `Queue.Pop` may return any element of maximal score, and every contract holds for
  every such choice.
- Memory management and capacity are not modelled. The exception is `reserve`'s
  `length_error` for a negative argument, which is an outcome of
  `Greedy.GreedyDecoding` and `Pruning.UpdateBestSeqs`.
- Narrowing conversions are not modelled. Symbols are unbounded integers, whereas the
  source passes them through `char` in `lm` and `greedy_decoding` and stores the
  position as `int`. The start symbol of `Greedy.GreedyDecoding` is an arbitrary
  integer where the source takes a `char`; a start outside the alphabet is reported as
  `OutOfAlphabet` as soon as its row is read. Every symbol the decoders append is a
  letter or NUL, which `char` represents exactly.
- Pruning.UpdateBestSeqs: the old contents of `best_seqs` are not a parameter, because
  the function clears them first. On `length_error` the frontier is left empty.
- Expansion.ExpandNextSeqs: requires a hypothesis that is non-empty and ends in a
  letter. `best_seq.selected.back()` is undefined on an empty vector, and `lm` indexes
  the table by `back() - 'a'`, which is outside it for NUL or any other non-letter. The
  same holds for every frontier hypothesis of `Expansion.ExpandAllNextSeqs`.
- Expansion.ExpandAllNextSeqs: the contributions are ghost values, and the contract
  names each one through `Expansion.Contributes`.

## Findings

| source | as written | input that shows it | evidently intended | confidence | as-written member | corrected member |
|---|---|---|---|---|---|---|
| beam-search/main.cc:52-62 | `max_score` and `chosen` are set once, before the position loop. Every position adds the running best so far and, when no letter beats it, re-appends the previous choice | `lm(a,b) = 5`, `lm(b,·) = 1`, otherwise 0. Start 'a', length 3: the decoder returns "abb" with score 10, but the transitions of "abb" sum to 6, and the best letter after 'b' is 'a' | Each position appends the best letter after the current symbol and adds that transition's own score, so the score is the path score | not executed | Greedy.GreedyScoreIsNotPathScore | Greedy.GreedyResetSpec |
| beam-search/main.cc:51-61 | When no letter scores above 0 after the start, the initial `chosen = '\0'` is appended. The next position then reads the table at row `'\0' - 'a'` | `lm` identically 0, start 'a': length 2 gives "a" followed by NUL, and length 3 reaches a read of NUL's row | Always append a letter: the first letter of maximal score, even when every score is 0 or below | not executed | Greedy.GreedyAppendsNul | Greedy.GreedyResetSpec |
