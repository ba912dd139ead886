/** The two sweep buffers trade roles each time the generation goes up by 2 (memory_heap.rs
    `get_pushable_sweep_buffer` and `get_popable_sweep_buffer`). */
module Generations {

  /** Which of the two buffers holds the swept spans; the other holds the unswept ones. */
  function SweptIndex(g: nat): (i: nat)
    ensures i < 2
  {
    g / 2 % 2
  }

  lemma RolesTrade(g: nat)
    ensures SweptIndex(g + 2) == 1 - SweptIndex(g)
  {
  }
}
