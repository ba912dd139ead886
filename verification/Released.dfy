/** How much of a scavenged span has gone back to the system (memory_span.rs `released` and
    `physical_page_bounds`).  Physical pages may be larger than heap pages; a span gives back only the
    physical pages that lie wholly inside it. */
module Released {
  import opened Powers
  import opened Words
  import opened Options
  import opened FiniteSets

  const PAGE_SHIFT: nat := 13
  const PAGE_SIZE: nat := 8192

  /** Sizes of physical pages are powers of two. */
  datatype Physical = Physical(shift: nat)

  function PhysicalPage(m: Physical): nat {
    Pow2(m.shift)
  }

  function End(start: nat, pages: nat): nat {
    start + pages * PAGE_SIZE
  }

  /** The span lies in the address space, with room to round its start up. */
  predicate Fits(start: nat, pages: nat, m: Physical) {
    m.shift < WORD_BITS && End(start, pages) < WORD && start + PhysicalPage(m) <= WORD
  }

  function PhysicalPageBounds(start: nat, pages: nat, m: Physical): (nat, nat)
    requires Fits(start, pages, m)
  {
    var p := PhysicalPage(m);
    if p > PAGE_SIZE then
      (And(start + p - 1, Not(p - 1)), And(End(start, pages), Not(p - 1)))
    else
      (start, End(start, pages))
  }

  /** The bytes given back; `None` when the source's subtraction goes below zero. */
  function ReleasedBytes(start: nat, pages: nat, scavenged: bool, m: Physical): Option<nat>
    requires Fits(start, pages, m)
  {
    if !scavenged then Some(0)
    else
      var (low, high) := PhysicalPageBounds(start, pages, m);
      if high < low then None else Some(high - low)
  }

  // ----- The masks round

  /** Masking with the complement of `p - 1` goes down to a multiple of `p`. */
  lemma MaskRounds(x: nat, k: nat)
    requires x < WORD && k <= WORD_BITS
    ensures Pow2(k) <= WORD && And(x, Not(Pow2(k) - 1)) == Div(x, Pow2(k)) * Pow2(k)
  {
    CommonPowers();
    AndHighMask(x, WORD_BITS, k);
    DivMod(x, Pow2(k));
  }

  function DivUp(x: nat, d: nat): nat
    requires d > 0
  {
    Div(x + d - 1, d)
  }

  lemma DivUpExactly(x: nat, d: nat)
    requires d > 0
    ensures DivUp(x, d) == Div(x, d) + if Mod(x, d) == 0 then 0 else 1
  {
    var q, r := Div(x, d), Mod(x, d);
    DivMod(x, d);
    if r == 0 {
      DivUnique(x + d - 1, d, q, d - 1);
    } else {
      NextMultiple(q, d);
      DivUnique(x + d - 1, d, q + 1, r - 1);
    }
  }

  lemma DivMonotone(x: nat, y: nat, d: nat)
    requires d > 0 && x <= y
    ensures Div(x, d) <= Div(y, d)
  {
    DivMod(x, d);
    DivMod(y, d);
    MultiplesOrdered(Div(y, d), Div(x, d), d);
  }

  /** The masks round the bounds in to multiples of the physical page size: the start up, the end
      down. */
  lemma BoundsRoundIn(start: nat, pages: nat, m: Physical)
    requires Fits(start, pages, m) && PhysicalPage(m) > PAGE_SIZE
    ensures var p := PhysicalPage(m);
      PhysicalPageBounds(start, pages, m) == (DivUp(start, p) * p, Div(End(start, pages), p) * p)
  {
    MaskRounds(start + PhysicalPage(m) - 1, m.shift);
    MaskRounds(End(start, pages), m.shift);
  }

  /** Rounding up finds the least multiple from `x` on; rounding down finds the greatest up to `x`. */
  lemma RoundingIsTight(x: nat, p: nat, j: nat)
    requires p > 0
    ensures x <= j * p <==> DivUp(x, p) <= j
    ensures j * p <= x <==> j <= Div(x, p)
  {
    DivMod(x, p);
    DivUpExactly(x, p);
    DivBelow(x, p, j);
    MultiplesOrdered(j, Div(x, p), p);
    MultiplesOrdered(Div(x, p), j, p);
    MultiplesOrdered(Div(x, p) + 1, j, p);
    NextMultiple(Div(x, p), p);
  }

  // ----- What is released

  ghost predicate WhollyInside(j: nat, start: nat, end: nat, p: nat) {
    start <= j * p && (j + 1) * p <= end
  }

  /** A scavenged span has given back exactly the physical pages wholly inside it. */
  lemma ReleasesWholePages(start: nat, pages: nat, m: Physical, inside: set<nat>)
    requires Fits(start, pages, m) && PhysicalPage(m) > PAGE_SIZE
    requires forall j: nat :: j in inside <==> WhollyInside(j, start, End(start, pages), PhysicalPage(m))
    requires ReleasedBytes(start, pages, true, m).Some?
    ensures ReleasedBytes(start, pages, true, m).value == |inside| * PhysicalPage(m)
  {
    var p, end := PhysicalPage(m), End(start, pages);
    var low, high := DivUp(start, p), Div(end, p);
    BoundsRoundIn(start, pages, m);
    MultiplesOrdered(high, low, p);
    forall j: nat
      ensures j in inside <==> j in Range(low, high)
    {
      RoundingIsTight(start, p, j);
      RoundingIsTight(end, p, j + 1);
    }
    assert inside == Range(low, high);
    LessProducts(low, high, p);
  }

  lemma LessProducts(a: nat, b: nat, p: nat)
    ensures b * p - a * p == (b - a) * p
  {
  }

  /** What a span has given back, as a number of bytes: nothing when it is not scavenged; else all of it when
      physical pages are no larger than heap pages, and otherwise what lies between the multiples of the
      physical page size inside it. */
  ghost function GivenBack(start: nat, pages: nat, scavenged: bool, m: Physical): int {
    var p := PhysicalPage(m);
    if !scavenged then 0
    else if p <= PAGE_SIZE then pages * PAGE_SIZE
    else Div(End(start, pages), p) * p - DivUp(start, p) * p
  }

  lemma ReleasedIsGivenBack(start: nat, pages: nat, scavenged: bool, m: Physical)
    requires Fits(start, pages, m) && ReleasedBytes(start, pages, scavenged, m).Some?
    ensures ReleasedBytes(start, pages, scavenged, m).value == GivenBack(start, pages, scavenged, m)
  {
    if PhysicalPage(m) > PAGE_SIZE {
      BoundsRoundIn(start, pages, m);
    }
  }

  /** A span that is not scavenged has given nothing back, and asking never fails. */
  lemma NotScavengedReleasesNothing(start: nat, pages: nat, m: Physical)
    requires Fits(start, pages, m)
    ensures ReleasedBytes(start, pages, false, m) == Some(0)
  {
  }

  /** The subtraction stays in range exactly when the span meets a boundary between physical pages. */
  lemma DefinedExactly(start: nat, pages: nat, m: Physical)
    requires Fits(start, pages, m) && PhysicalPage(m) > PAGE_SIZE
    ensures ReleasedBytes(start, pages, true, m).Some?
       <==> exists j: nat :: start <= j * PhysicalPage(m) <= End(start, pages)
  {
    var p, end := PhysicalPage(m), End(start, pages);
    var low, high := DivUp(start, p), Div(end, p);
    BoundsRoundIn(start, pages, m);
    MultiplesOrdered(high, low, p);
    MultiplesOrdered(low, high, p);
    if j: nat :| start <= j * p <= end {
      RoundingIsTight(start, p, j);
      RoundingIsTight(end, p, j);
    }
    if low <= high {
      RoundingIsTight(start, p, low);
      RoundingIsTight(end, p, low);
      assert start <= low * p <= end;
    }
  }

  /** Whether a physical page begins at `x`, as far as rounding is concerned. */
  predicate OnBoundary(x: nat, m: Physical) {
    PhysicalPage(m) <= PAGE_SIZE || Mod(x, PhysicalPage(m)) == 0
  }

  lemma HalfReleased(start: nat, pages: nat, m: Physical)
    requires Fits(start, pages, m) && PhysicalPage(m) > PAGE_SIZE
    ensures var p, low, high := PhysicalPage(m), DivUp(start, PhysicalPage(m)), Div(End(start, pages), PhysicalPage(m));
      ReleasedBytes(start, pages, true, m) == if low <= high then Some((high - low) * p) else None
  {
    var p, low, high := PhysicalPage(m), DivUp(start, PhysicalPage(m)), Div(End(start, pages), PhysicalPage(m));
    BoundsRoundIn(start, pages, m);
    MultiplesOrdered(high, low, p);
    MultiplesOrdered(low, high, p);
    if low <= high {
      LessProducts(low, high, p);
    }
  }

  /** Joining two adjacent scavenged spans releases what they released, and the physical page that their
      boundary cuts through when it cuts through one; never more than the bytes joined. */
  lemma ReleasedOfJoin(start: nat, a: nat, b: nat, m: Physical)
    requires Fits(start, a + b, m) && Fits(End(start, a), b, m)
    requires ReleasedBytes(start, a, true, m).Some? && ReleasedBytes(End(start, a), b, true, m).Some?
    ensures ReleasedBytes(start, a + b, true, m).Some?
    ensures ReleasedBytes(start, a + b, true, m).value ==
      ReleasedBytes(start, a, true, m).value + ReleasedBytes(End(start, a), b, true, m).value
      + if OnBoundary(End(start, a), m) then 0 else PhysicalPage(m)
    ensures ReleasedBytes(start, a + b, true, m).value <= (a + b) * PAGE_SIZE
  {
    var p, mid := PhysicalPage(m), End(start, a);
    if p > PAGE_SIZE {
      HalfReleased(start, a, m);
      HalfReleased(mid, b, m);
      HalfReleased(start, a + b, m);
      DivUpExactly(mid, p);
      DivMonotone(start, start + p - 1, p);
      AddProducts(Div(mid, p) - DivUp(start, p), Div(End(mid, b), p) - DivUp(mid, p), if Mod(mid, p) == 0 then 0 else 1, p);
      ReleasedAtMost(start, a + b, m);
    }
  }

  lemma AddProducts(x: nat, y: nat, z: nat, p: nat)
    ensures (x + y + z) * p == x * p + y * p + z * p
  {
  }

  /** No more is released than the span has. */
  lemma ReleasedAtMost(start: nat, pages: nat, m: Physical)
    requires Fits(start, pages, m) && ReleasedBytes(start, pages, true, m).Some?
    ensures ReleasedBytes(start, pages, true, m).value <= pages * PAGE_SIZE
    ensures PhysicalPage(m) <= PAGE_SIZE ==> ReleasedBytes(start, pages, true, m).value == pages * PAGE_SIZE
  {
    var p := PhysicalPage(m);
    if p > PAGE_SIZE {
      BoundsRoundIn(start, pages, m);
      RoundingIsTight(start, p, DivUp(start, p));
      RoundingIsTight(End(start, pages), p, Div(End(start, pages), p));
    }
  }

  // ----- The end address as the source has it
  //
  // In the source's `start + number_of_pages << PAGE_SHIFT` the sum comes first; the shift drops the
  // bits that leave the word.

  function EndAsWritten(start: nat, pages: nat): nat {
    (start + pages) * PAGE_SIZE % WORD
  }

  const INVERSE: nat := 0xffef_ff7f_fbff_dfff

  /** The end as written is the end of the span exactly for a span at address 0. */
  lemma EndAsWrittenExactly(start: nat, pages: nat)
    requires End(start, pages) < WORD
    ensures EndAsWritten(start, pages) == End(start, pages) <==> start == 0
  {
    if EndAsWritten(start, pages) == End(start, pages) {
      var k := (start + pages) * PAGE_SIZE / WORD;
      assert start * 8191 == k * WORD;
      OddFactor(start, k);
    }
  }

  lemma OddFactor(x: nat, k: nat)
    requires x * 8191 == k * WORD && x < WORD
    ensures x == 0
  {
    var c := (8191 * INVERSE - 1) / WORD;
    assert 8191 * INVERSE == c * WORD + 1;
    assert x * 8191 * INVERSE == x * (c * WORD) + x;
    assert x == (k * INVERSE - x * c) * WORD;
  }
}
