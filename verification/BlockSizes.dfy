/** The sizes of a sweep buffer's parts. */
module BlockSizes {
  import opened Powers

  const BLOCK_ENTRIES: nat := 512   // GC_SWEEP_BLOCK_ENTRIES
  const INIT_SPINE_CAP: nat := 256  // GC_SWEEP_BUF_INIT_SPINE_CAP

  /** The capacity of the spine that replaces one of capacity `cap`. */
  function NewCap(cap: nat): nat {
    if cap == 0 then INIT_SPINE_CAP else cap * 2
  }

  /** The least capacity for `n` blocks: none for none, or 256 doubled as often as needed. */
  function LeastCap(n: nat): nat {
    if n == 0 then 0 else if n <= INIT_SPINE_CAP then INIT_SPINE_CAP else 2 * LeastCap((n + 1) / 2)
  }

  /** Growing only when the spine is full keeps the capacity at the least one. */
  lemma {:induction false} CapGrows(n: nat)
    ensures n <= LeastCap(n)
    ensures LeastCap(n + 1) == if n == LeastCap(n) then NewCap(LeastCap(n)) else LeastCap(n)
  {
    if n > INIT_SPINE_CAP {
      if n % 2 == 0 {
        CapGrows(n / 2);
      } else {
        CapGrows((n + 1) / 2);
      }
    }
  }

  /** `LeastCap` is the least of the capacities 256, 512, 1024 and so on that is large enough. */
  lemma {:induction false} LeastCapIsLeast(n: nat) returns (k: nat)
    requires n > 0
    ensures LeastCap(n) == INIT_SPINE_CAP * Pow2(k) && n <= LeastCap(n)
    ensures forall j: nat :: n <= INIT_SPINE_CAP * Pow2(j) <==> k <= j
  {
    if n <= INIT_SPINE_CAP {
      k := 0;
    } else {
      var i := LeastCapIsLeast((n + 1) / 2);
      k := i + 1;
      forall j: nat
        ensures n <= INIT_SPINE_CAP * Pow2(j) <==> k <= j
      {
        if j > 0 {
          assert (n + 1) / 2 <= INIT_SPINE_CAP * Pow2(j - 1) <==> i <= j - 1;
        }
      }
    }
  }
}
