/** Indices that run free in 32-bit words. */
module Words {

  const WORD: nat := 0x1_0000_0000

  /** Unsigned 32-bit subtraction. */
  function Sub32(a: nat, b: nat): (r: nat)
    ensures r < WORD
    ensures a < WORD && b < WORD ==> r == if a >= b then a - b else a + WORD - b
  {
    (a - b) % WORD
  }

  /** The word that holds position p, counted without bound. */
  ghost predicate Wraps(w: nat, p: nat) {
    w == p % WORD
  }

  /** The words tell how far apart two positions are, while they are less than 2^32 apart. */
  lemma Gap(a: nat, p: nat, b: nat, q: nat)
    requires Wraps(a, p) && Wraps(b, q) && q <= p < q + WORD
    ensures Sub32(a, b) == p - q
  {
  }
}
