/** The arena map (memory_heap.rs `set_span` and `arena_*`; the constants of memory_allocator.rs).

    The heap records a span for a page in a slot: a level-1 index, a level-2 index, and a span index
    within the arena.  Sizes are powers of two, and the facts hold for all of them at once; two platforms
    are instances. */
module ArenaIndex {
  import opened Powers
  import opened Words
  import opened Options

  datatype Layout = Layout(
    pageShift: nat,      // PAGE_SHIFT
    arenaShift: nat,     // LOG_HEAP_ARENA_BYTES
    level1Bits: nat,     // ARENA_LEVEL_1_BITS
    level2Bits: nat,     // ARENA_LEVEL_2_BITS
    wordBits: nat,
    baseOffset: nat)     // ARENA_BASE_OFFSET

  ghost predicate Valid(l: Layout) {
    && l.pageShift <= l.arenaShift
    && l.arenaShift + l.level1Bits + l.level2Bits <= l.wordBits
    && l.baseOffset < Pow2(l.wordBits)
    && Mod(l.baseOffset, Pow2(l.arenaShift)) == 0
  }

  function PageBytes(l: Layout): (b: nat)
    ensures b > 0
  {
    Pow2(l.pageShift)
  }

  function ArenaBytes(l: Layout): (b: nat)
    ensures b > 0
  {
    Pow2(l.arenaShift)
  }

  /** The number of the page that address `p` lies in. */
  function Page(l: Layout, p: nat): nat {
    Div(p, PageBytes(l))
  }

  function PagesPerArena(l: Layout): nat
    requires l.pageShift <= l.arenaShift
  {
    Pow2(l.arenaShift - l.pageShift)
  }

  /** Addresses of one word. */
  ghost predicate Address(l: Layout, p: nat) {
    p < Pow2(l.wordBits)
  }

  /** The address seen from the base of the map.  The sum wraps, so high addresses come first. */
  function Wrapped(l: Layout, p: nat): nat {
    Mod(p + l.baseOffset, Pow2(l.wordBits))
  }

  function ArenaIndexOf(l: Layout, p: nat): nat {
    Div(Wrapped(l, p), ArenaBytes(l))
  }

  function Level1(l: Layout, i: nat): nat {
    if l.level1Bits == 0 then 0 else Div(i, Pow2(l.level2Bits))
  }

  function Level2(l: Layout, i: nat): nat {
    if l.level1Bits == 0 then i else And(i, Pow2(l.level2Bits) - 1)
  }

  datatype Slot = Slot(level1: nat, level2: nat, span: nat)

  /** The slot that `set_span` writes for address `p`. */
  function SlotOf(l: Layout, p: nat): Slot
    requires l.pageShift <= l.arenaShift
  {
    var i := ArenaIndexOf(l, p);
    Slot(Level1(l, i), Level2(l, i), Mod(Page(l, p), PagesPerArena(l)))
  }

  /** The slot lies within the tables. */
  predicate InBounds(l: Layout, s: Slot)
    requires l.pageShift <= l.arenaShift
  {
    s.level1 < Pow2(l.level1Bits) && s.level2 < Pow2(l.level2Bits) && s.span < PagesPerArena(l)
  }

  // ----- From a slot back to its page

  function IndexOfLevels(l: Layout, level1: nat, level2: nat): nat {
    if l.level1Bits == 0 then level2 else level1 * Pow2(l.level2Bits) + level2
  }

  /** The page that a slot stands for. */
  function PageOfSlot(l: Layout, s: Slot): int
    requires Valid(l)
  {
    var i, c := IndexOfLevels(l, s.level1, s.level2), OffsetArenas(l);
    (if i >= c then i - c else i + Arenas(l) - c) * PagesPerArena(l) + s.span
  }

  /** Arenas in the whole address space. */
  function Arenas(l: Layout): nat
    requires Valid(l)
  {
    Pow2(l.wordBits - l.arenaShift)
  }

  function OffsetArenas(l: Layout): nat {
    Div(l.baseOffset, ArenaBytes(l))
  }

  lemma LevelsRecoverIndex(l: Layout, i: nat)
    ensures IndexOfLevels(l, Level1(l, i), Level2(l, i)) == i
  {
    AndLowMask(i, l.level2Bits);
    DivMod(i, Pow2(l.level2Bits));
  }

  lemma AddWrapping(p: nat, q: nat, m: nat)
    requires p < m && q < m
    ensures Mod(p + q, m) == if p + q < m then p + q else p + q - m
  {
    DivUnique(p + q, m, if p + q < m then 0 else 1, if p + q < m then p + q else p + q - m);
  }

  lemma ArenasWithin(l: Layout, p: nat)
    requires Valid(l) && Address(l, p)
    ensures Div(p, ArenaBytes(l)) < Arenas(l)
  {
    PowSub(l.wordBits, l.arenaShift);
    DivBelow(p, ArenaBytes(l), Arenas(l));
  }

  /** A sum with a multiple of `d`, wrapped at `n`, in units of `d`. */
  lemma {:induction false} WrappedUnits(p: nat, base: nat, n: nat, e: nat, d: nat)
    requires d > 0 && e > 0 && n == e * d && Mod(base, d) == 0
    ensures n > 0 && Div(Mod(p + base, n), d) == Mod(Div(p, d) + Div(base, d), e)
  {
    DivMod(base, d);
    DivShift(p, d, Div(base, d));
    DivByProduct(p + base, n, e, d);
  }

  /** Seen from the base of the map, the arena of an address is its own arena number moved round by
      the offset. */
  lemma {:induction false} ArenaMoved(l: Layout, p: nat)
    requires Valid(l)
    ensures ArenaIndexOf(l, p) == Mod(Div(p, ArenaBytes(l)) + OffsetArenas(l), Arenas(l))
  {
    PowSub(l.wordBits, l.arenaShift);
    WrappedUnits(p, l.baseOffset, Pow2(l.wordBits), Arenas(l), ArenaBytes(l));
  }

  lemma {:induction false} ArenaNumber(l: Layout, p: nat)
    requires Valid(l) && Address(l, p)
    ensures OffsetArenas(l) < Arenas(l) && Div(p, ArenaBytes(l)) < Arenas(l)
    ensures ArenaIndexOf(l, p) == Mod(Div(p, ArenaBytes(l)) + OffsetArenas(l), Arenas(l))
  {
    ArenaMoved(l, p);
    ArenasWithin(l, p);
    ArenasWithin(l, l.baseOffset);
  }

  lemma ArenaOfPage(l: Layout, p: nat)
    requires Valid(l)
    ensures Div(p, ArenaBytes(l)) == Div(Page(l, p), PagesPerArena(l))
  {
    PowSub(l.arenaShift, l.pageShift);
    DivByProduct(p, ArenaBytes(l), PagesPerArena(l), PageBytes(l));
  }

  /** The page of an address is recovered from its slot. */
  lemma PageRecovered(l: Layout, p: nat)
    requires Valid(l) && Address(l, p)
    ensures PageOfSlot(l, SlotOf(l, p)) == Page(l, p)
  {
    LevelsRecoverIndex(l, ArenaIndexOf(l, p));
    ArenaNumber(l, p);
    AddWrapping(Div(p, ArenaBytes(l)), OffsetArenas(l), Arenas(l));
    ArenaOfPage(l, p);
    DivMod(Page(l, p), PagesPerArena(l));
  }

  /** Bytes of one page share a slot, and distinct pages have distinct slots. */
  lemma OneSlotPerPage(l: Layout, p: nat, q: nat)
    requires Valid(l) && Address(l, p) && Address(l, q)
    ensures SlotOf(l, p) == SlotOf(l, q) <==> Page(l, p) == Page(l, q)
  {
    if Page(l, p) == Page(l, q) {
      ArenaOfPage(l, p);
      ArenaOfPage(l, q);
      ArenaNumber(l, p);
      ArenaNumber(l, q);
    } else {
      PageRecovered(l, p);
      PageRecovered(l, q);
    }
  }

  /** The slot is within the tables exactly for addresses that the map covers. */
  lemma InBoundsExactly(l: Layout, p: nat)
    requires Valid(l)
    ensures InBounds(l, SlotOf(l, p)) <==> Wrapped(l, p) < Pow2(l.arenaShift + l.level1Bits + l.level2Bits)
  {
    CoveredIndices(l, Wrapped(l, p));
    LevelsWithin(l, ArenaIndexOf(l, p));
  }

  lemma CoveredIndices(l: Layout, v: nat)
    ensures v < Pow2(l.arenaShift + l.level1Bits + l.level2Bits)
       <==> Div(v, ArenaBytes(l)) < Pow2(l.level1Bits + l.level2Bits)
  {
    PowAdd(l.level1Bits + l.level2Bits, l.arenaShift);
    DivBelow(v, ArenaBytes(l), Pow2(l.level1Bits + l.level2Bits));
  }

  lemma LevelsWithin(l: Layout, i: nat)
    ensures i < Pow2(l.level1Bits + l.level2Bits)
       <==> Level1(l, i) < Pow2(l.level1Bits) && Level2(l, i) < Pow2(l.level2Bits)
  {
    PowAdd(l.level1Bits, l.level2Bits);
    DivBelow(i, Pow2(l.level2Bits), Pow2(l.level1Bits));
    AndLowMask(i, l.level2Bits);
  }

  /** With an offset of half the map, the map covers the addresses that are a sign-extended number of
      as many bits as the map has. */
  lemma CanonicalExactly(l: Layout, p: nat, h: nat)
    requires Valid(l) && Address(l, p) && l.arenaShift + l.level1Bits + l.level2Bits == h + 1 < l.wordBits
    requires l.baseOffset == Pow2(h)
    ensures InBounds(l, SlotOf(l, p)) <==> p < Pow2(h) || p >= Pow2(l.wordBits) - Pow2(h)
  {
    InBoundsExactly(l, p);
    PowDouble(h + 1, l.wordBits);
    AddWrapping(p, Pow2(h), Pow2(l.wordBits));
  }

  // ----- The platforms

  const LINUX: Layout := Layout(13, 26, 0, 22, 64, 0x8000_0000_0000)
  const WINDOWS: Layout := Layout(13, 22, 6, 20, 64, 0x8000_0000_0000)

  lemma PlatformsValid()
    ensures Valid(LINUX) && Valid(WINDOWS)
  {
    CommonPowers();
    PowMultiple(47, 26);
    PowMultiple(47, 22);
  }

  /** On both platforms each 8 KiB page of the 48-bit canonical address space has a slot of its own
      within the tables, and no other address has one. */
  lemma PlatformSlots(l: Layout, p: nat, q: nat)
    requires l == LINUX || l == WINDOWS
    requires p < WORD && q < WORD
    ensures InBounds(l, SlotOf(l, p)) <==> p < 0x8000_0000_0000 || p >= 0xffff_8000_0000_0000
    ensures SlotOf(l, p) == SlotOf(l, q) <==> p / 0x2000 == q / 0x2000
  {
    DivIsDivision(p, 0x2000);
    DivIsDivision(q, 0x2000);
    CommonPowers();
    PlatformsValid();
    CanonicalExactly(l, p, 47);
    OneSlotPerPage(l, p, q);
  }

  lemma {:induction false} SlotByDivision(l: Layout, p: nat, arena: nat, pages: nat)
    requires Valid(l) && l.pageShift == 13 && l.wordBits == 64 && l.baseOffset == 0x8000_0000_0000
    requires Pow2(l.arenaShift) == arena && Pow2(l.arenaShift - 13) == pages
    ensures ArenaIndexOf(l, p) == (p + 0x8000_0000_0000) % WORD / arena
    ensures SlotOf(l, p).span == p / 0x2000 % pages
  {
    CommonPowers();
    DivIsDivision(p + 0x8000_0000_0000, WORD);
    DivIsDivision(Wrapped(l, p), arena);
    DivIsDivision(p, 0x2000);
    DivIsDivision(Page(l, p), pages);
  }

  /** The three numbers of a slot, in plain arithmetic on the address. */
  lemma SlotNumbers(p: nat)
    requires p < WORD
    ensures SlotOf(LINUX, p) == Slot(0, (p + 0x8000_0000_0000) % WORD / 0x400_0000, p / 0x2000 % 0x2000)
    ensures var i := (p + 0x8000_0000_0000) % WORD / 0x40_0000;
      SlotOf(WINDOWS, p) == Slot(i / 0x10_0000, i % 0x10_0000, p / 0x2000 % 0x200)
  {
    CommonPowers();
    PlatformsValid();
    assert Pow2(7) == 128 && Pow2(9) == 512;
    PowSum(13, 7, 0x2000, 128);
    SlotByDivision(LINUX, p, 0x400_0000, 0x2000);
    SlotByDivision(WINDOWS, p, 0x40_0000, 0x200);
    var i := ArenaIndexOf(WINDOWS, p);
    AndLowMask(i, 20);
    DivIsDivision(i, 0x10_0000);
  }

  // ----- The sum as the source has it
  //
  // The source's `p + ARENA_BASE_OFFSET` is a plain sum, which fails where it leaves the word if overflow is
  // checked; the model wraps, as the sign-extended addresses need.

  function ArenaIndexChecked(l: Layout, p: nat): Option<nat> {
    if p + l.baseOffset < Pow2(l.wordBits) then Some(Div(p + l.baseOffset, ArenaBytes(l))) else None
  }

  /** Of the addresses the map covers, the plain sum serves exactly the lower half. */
  lemma PlainSumExactly(l: Layout, p: nat)
    requires l == LINUX || l == WINDOWS
    requires p < WORD && InBounds(l, SlotOf(l, p))
    ensures ArenaIndexChecked(l, p) == Some(ArenaIndexOf(l, p)) <==> p < 0x8000_0000_0000
  {
    CommonPowers();
    PlatformSlots(l, p, p);
    AddWrapping(p, l.baseOffset, Pow2(l.wordBits));
  }

  // ----- The level-2 mask as the source has it
  //
  // In the source's `1 << ARENA_LEVEL_2_BITS - 1` the subtraction comes first, so the mask has one bit.

  function Level2AsWritten(l: Layout, i: nat): nat
    requires l.level2Bits >= 1
  {
    if l.level1Bits == 0 then i else And(i, Pow2(l.level2Bits - 1))
  }

  function SlotAsWritten(l: Layout, p: nat): Slot
    requires l.pageShift <= l.arenaShift && l.level2Bits >= 1
  {
    SlotOf(l, p).(level2 := Level2AsWritten(l, ArenaIndexOf(l, p)))
  }

  /** The mask as written gives each page a slot of its own exactly where it is not used or the second
      level has a single bit. */
  lemma AsWrittenMaskExactly(l: Layout)
    requires Valid(l) && l.level2Bits >= 1
    ensures (forall p: nat, q: nat | Address(l, p) && Address(l, q) && SlotAsWritten(l, p) == SlotAsWritten(l, q)
               :: Page(l, p) == Page(l, q))
       <==> l.level1Bits == 0 || l.level2Bits == 1
  {
    if l.level1Bits == 0 || l.level2Bits == 1 {
      forall p: nat, q: nat | Address(l, p) && Address(l, q) && SlotAsWritten(l, p) == SlotAsWritten(l, q)
        ensures Page(l, p) == Page(l, q)
      {
        OneBitMaskSuffices(l, ArenaIndexOf(l, p));
        OneBitMaskSuffices(l, ArenaIndexOf(l, q));
        OneSlotPerPage(l, p, q);
      }
    } else {
      var p, q := TwoArenasOneSlot(l);
    }
  }

  lemma OneBitMaskSuffices(l: Layout, i: nat)
    requires l.level2Bits >= 1 && (l.level1Bits == 0 || l.level2Bits == 1)
    ensures Level2(l, i) == Level2AsWritten(l, i)
  {
    assert Pow2(1) == 2 && Pow2(0) == 1;
  }

  /** The first two arenas of the map are given one slot. */
  lemma TwoArenasOneSlot(l: Layout) returns (p: nat, q: nat)
    requires Valid(l) && l.level1Bits > 0 && l.level2Bits > 1
    ensures Address(l, p) && Address(l, q)
    ensures SlotAsWritten(l, p) == SlotAsWritten(l, q) && Page(l, p) != Page(l, q)
  {
    PowDouble(l.arenaShift, l.wordBits);
    PowDouble(0, l.wordBits - l.arenaShift);
    p := AddressOfArena(l, 0);
    q := AddressOfArena(l, 1);
    SmallIndex(l, 0);
    SmallIndex(l, 1);
    LevelsRecoverIndex(l, 0);
    LevelsRecoverIndex(l, 1);
    OneSlotPerPage(l, p, q);
  }

  /** On Windows the mask as written leaves one bit of the arena's index. */
  lemma WindowsLevel2AsWritten(p: nat)
    requires p < WORD
    ensures SlotAsWritten(WINDOWS, p).level2 == (p + 0x8000_0000_0000) % WORD / 0x40_0000 / 0x8_0000 % 2 * 0x8_0000
  {
    CommonPowers();
    PlatformsValid();
    assert Pow2(6) == 64 && Pow2(9) == 512;
    PowSum(13, 6, 0x2000, 64);
    SlotByDivision(WINDOWS, p, 0x40_0000, 0x200);
    var i := ArenaIndexOf(WINDOWS, p);
    AndOneBit(i, 19);
    DivIsDivision(i, 0x8_0000);
  }

  lemma SmallIndex(l: Layout, i: nat)
    requires l.level1Bits > 0 && l.level2Bits > 1 && i < 2
    ensures Level1(l, i) == 0 && Level2AsWritten(l, i) == 0
  {
    PowDouble(0, l.level2Bits - 1);
    AndOneBit(i, l.level2Bits - 1);
  }

  /** The first byte of the arena with a given index. */
  lemma AddressOfArena(l: Layout, i: nat) returns (p: nat)
    requires Valid(l) && i < Arenas(l)
    ensures Address(l, p) && ArenaIndexOf(l, p) == i
    ensures Mod(Page(l, p), PagesPerArena(l)) == 0
  {
    ArenaNumber(l, 0);
    var f := MoveOnto(i, OffsetArenas(l), Arenas(l));
    p := f * ArenaBytes(l);
    StartOfArena(l, f);
    FirstOfArena(l, f);
  }

  /** The number that moving on by `c` takes to `i`. */
  lemma MoveOnto(i: nat, c: nat, n: nat) returns (f: nat)
    requires i < n && c < n
    ensures f < n && Mod(f + c, n) == i
  {
    f := if i >= c then i - c else i + n - c;
    AddWrapping(f, c, n);
  }

  lemma StartOfArena(l: Layout, f: nat)
    requires Valid(l) && f < Arenas(l)
    ensures Address(l, f * ArenaBytes(l))
    ensures ArenaIndexOf(l, f * ArenaBytes(l)) == Mod(f + OffsetArenas(l), Arenas(l))
  {
    PowSub(l.wordBits, l.arenaShift);
    StartOfMultiple(f, Arenas(l), ArenaBytes(l));
    ArenaNumber(l, f * ArenaBytes(l));
  }

  lemma FirstOfArena(l: Layout, f: nat)
    requires Valid(l)
    ensures Mod(Page(l, f * ArenaBytes(l)), PagesPerArena(l)) == 0
  {
    PowSub(l.arenaShift, l.pageShift);
    StartOfProduct(f, ArenaBytes(l), PagesPerArena(l), PageBytes(l));
  }
}
