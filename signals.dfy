/**
 * What the two C drivers (bitbash.c and lib.c) share about a drive's pins:
 * the `~` toggle of a level and the 120-step direction reversal.
 */
module Signals {
  /** Steps after which the head changes direction. */
  const REVERSAL_LIMIT := 120

  /** C's bitwise `~` on a two's-complement integer. */
  function Not(x: int): int { -x - 1 }

  /** The two values the `~` toggle alternates between. */
  predicate IsLevel(x: int) { x == 0 || x == -1 }
}
