/** The fixed 26-letter alphabet the decoders iterate over, and the scoring oracle's type.

    Symbols are the integer codes the decoded sequences store; the alphabet is the
    letters 'a' to 'z' in order, and the code 0 is the NUL character the greedy decoder
    starts its running choice with. */
module Alphabet {

  /** The NUL character, the greedy decoder's initial choice. */
  const Nul: int := 0

  /** The alphabet `docs`, in iteration order. */
  const Docs: seq<char> := "abcdefghijklmnopqrstuvwxyz"

  /** The code of the letter at index `k` of `Docs`: the letters are consecutive codes
      (`DocIsLetterOfDocs`). */
  function Doc(k: nat): int
    requires k < |Docs|
  {
    'a' as int + k
  }

  /** True of exactly the 26 codes of `Docs`. */
  predicate InAlphabet(c: int) {
    'a' as int <= c <= 'z' as int
  }

  /** The language model `lm(cur, next)`. It is only meaningful when `cur` and `next`
      are both in the alphabet (it indexes a table by `cur - 'a'` and `next - 'a'`).
      The greedy decoder reports a row read outside the alphabet as an error outcome;
      expansion requires the hypothesis it extends to end in a letter. */
  type Oracle = (int, int) -> real

  /** `Doc(k)` is the code of the `k`-th character of `Docs`. */
  lemma DocIsLetterOfDocs(k: nat)
    requires k < |Docs|
    ensures Doc(k) == Docs[k] as int
  {
  }

  /** Every alphabet symbol is the letter of `Docs` at its offset from 'a'. */
  lemma DocsEnumerateAlphabet(c: int)
    requires InAlphabet(c)
    ensures Doc(c - 'a' as int) == c
  {
  }
}
