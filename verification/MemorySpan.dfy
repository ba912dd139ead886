/** The span with its byte bitmaps and its 64-bit allocation cache (memory_span.rs). */
module MemorySpan {
  import opened Bits
  import opened Bitmap
  import opened SpanModel

  /** Bitmaps are padded to whole 64-bit words. */
  function BitmapBytes(n: nat): nat {
    (n + 63) / 64 * 8
  }

  /** Whether index `i` is in range of the bitmap and clear. */
  ghost predicate IsClear(bits: seq<bv8>, i: nat) {
    i < 8 * |bits| && !IsSet(bits, i)
  }

  ghost function CachedBits(cache: bv64): set<nat> {
    set j: nat | j < 64 && Bit(cache, j)
  }

  ghost predicate ClearAt(bits: seq<bv8>, from: nat, j: nat) {
    j < 64 - from % 64 && IsClear(bits, from + j)
  }

  /** The clear bits from `from` to the end of its 64-bit word, counted from `from`. */
  ghost function ClearAhead(bits: seq<bv8>, from: nat): set<nat> {
    set j: nat | j < 64 && ClearAt(bits, from, j)
  }

  /** The cache holds the complement of the bitmap from `from` to the end of its 64-bit word, and
      zeros above. */
  ghost predicate Caches(cache: bv64, bits: seq<bv8>, from: nat) {
    CachedBits(cache) == ClearAhead(bits, from)
  }

  ghost predicate AllSet(bits: seq<bv8>, n: nat, lo: nat, hi: nat) {
    n <= 8 * |bits| && forall i :: lo <= i < hi && i < n ==> i in SetBits(bits, n)
  }

  // ----- Span classes: a size class, and whether the objects hold no pointers

  function SizeClassOf(spanClass: nat): nat {
    spanClass / 2
  }

  function NoScanOf(spanClass: nat): bool {
    spanClass % 2 != 0
  }

  /** A span class is twice its size class, plus one if its objects hold no pointers. */
  lemma SpanClassParts(spanClass: nat)
    ensures spanClass == 2 * SizeClassOf(spanClass) + if NoScanOf(spanClass) then 1 else 0
  {
  }

  /** Every size class has two span classes, one of each kind. */
  lemma TwinClasses(k: nat, spanClass: nat)
    ensures SizeClassOf(spanClass) == k <==> spanClass == 2 * k || spanClass == 2 * k + 1
    ensures NoScanOf(2 * k + 1) && !NoScanOf(2 * k)
  {
  }

  class MemorySpanData {
    var state: State
    var sweepGeneration: nat
    var numberOfPages: nat
    var spanClass: nat  // a `u8`: twice the size class, plus one for spans without pointers
    var needZero: bool
    const numberOfElements: nat
    var freeIndex: nat
    var allocCache: bv64
    var allocBits: array<bv8>
    var gcMarkBits: array<bv8>
    var allocationsCount: nat

    /** What the bitmaps and the cache owe each other between calls. */
    ghost predicate Valid()
      reads this, allocBits, gcMarkBits
    {
      && numberOfElements > 0
      && allocBits.Length == gcMarkBits.Length == BitmapBytes(numberOfElements)
      && freeIndex <= numberOfElements
      && allocationsCount < 0x1_0000
      && (freeIndex < numberOfElements ==> Caches(allocCache, allocBits[..], freeIndex))
    }

    function SizeClass(): (k: nat)
      reads this
      ensures spanClass == 2 * k || spanClass == 2 * k + 1
    {
      SizeClassOf(spanClass)
    }

    /** The span as a value, its bitmaps as sets of object indices. */
    ghost function Model(): Span
      requires Valid()
      reads this, allocBits, gcMarkBits
    {
      Span(state, sweepGeneration, numberOfPages, SizeClass(), numberOfElements, freeIndex,
           SetBits(allocBits[..], numberOfElements), SetBits(gcMarkBits[..], numberOfElements),
           allocationsCount, needZero)
    }

    /** Loads the complement of eight allocation bytes into the cache. */
    method RefillAllocationsCache(whichByte: nat)
      requires whichByte % 8 == 0 && whichByte + 8 <= allocBits.Length
      modifies this`allocCache
      ensures Caches(allocCache, allocBits[..], 8 * whichByte)
    {
      var bytes := allocBits[whichByte..whichByte + 8];
      allocCache := !FromLeBytes(bytes);
      ComplementCaches(allocBits[..], whichByte, allocCache);
    }

    /** The set bits of the first `maxIndex` mark bytes. */
    method CountWholeBytes(maxIndex: nat) returns (count: nat)
      requires maxIndex <= gcMarkBits.Length
      ensures count == CountSet(gcMarkBits[..], 8 * maxIndex)
    {
      count := 0;
      ghost var marks := gcMarkBits[..];
      for i := 0 to maxIndex
        invariant count == CountSet(marks, 8 * i)
      {
        CountSetFromByte(marks, i, 8);
        count := count + TableEntry(gcMarkBits[i]);
      }
    }

    /** The number of marked objects, whatever the padding bits hold. */
    method CountAllocations() returns (count: nat)
      requires Valid()
      ensures count == |SetBits(gcMarkBits[..], numberOfElements)|
    {
      var maxIndex := numberOfElements / 8;
      count := CountWholeBytes(maxIndex);
      var bitsInLastByte := numberOfElements % 8;
      if bitsInLastByte != 0 {
        var bits := gcMarkBits[maxIndex] & LowMask(bitsInLastByte);
        CountMasked(gcMarkBits[maxIndex], bitsInLastByte, 8);
        CountSetFromByte(gcMarkBits[..], maxIndex, bitsInLastByte);
        count := count + TableEntry(bits);
      }
      CountSetIsCardinality(gcMarkBits[..], numberOfElements);
    }

    /** `alloc_cache >>= k`: the cache follows the free index to the end of its word.  A shift by 64, which
        overflow checks reject, happens only at the end of a word, and then whatever it leaves is never
        read. */
    method ShiftCache(from: nat, k: nat) returns (overflows: bool)
      requires Caches(allocCache, allocBits[..], from) && k <= 64 - from % 64
      modifies this`allocCache
      ensures overflows <==> k == 64
      ensures (from + k) % 64 != 0 ==> Caches(allocCache, allocBits[..], from + k)
    {
      CacheShifted(allocCache, allocBits[..], from, k);
      overflows := k >= 64;
      if !overflows {
        allocCache := ShiftRight(allocCache, k);
      } else {
        NextWord(from);
        allocCache := *;
      }
    }

    /** The loop of `next_free_index`: moves the cache to the first word with a free object at or
        after the free index.  The answer is that word's start (or the free index itself), or an
        index past the last object. */
    method SkipFullWords() returns (spanFreeIndex: nat)
      requires Valid() && freeIndex < numberOfElements
      modifies this`allocCache
      ensures freeIndex <= spanFreeIndex && (spanFreeIndex == freeIndex || spanFreeIndex % 64 == 0)
      ensures AllSet(allocBits[..], numberOfElements, freeIndex, spanFreeIndex)
      ensures spanFreeIndex < numberOfElements ==>
        Caches(allocCache, allocBits[..], spanFreeIndex) && TrailingZeros(allocCache) != 64
    {
      spanFreeIndex := freeIndex;
      ghost var bits := allocBits[..];
      var bitIndex := TrailingZeros(allocCache);
      while bitIndex == 64
        invariant freeIndex <= spanFreeIndex < numberOfElements
        invariant spanFreeIndex == freeIndex || spanFreeIndex % 64 == 0
        invariant Caches(allocCache, bits, spanFreeIndex)
        invariant AllSet(bits, numberOfElements, freeIndex, spanFreeIndex)
        invariant bitIndex == TrailingZeros(allocCache)
        decreases numberOfElements - spanFreeIndex
      {
        WordExhausted(allocCache, bits, spanFreeIndex, numberOfElements);
        NextWord(spanFreeIndex);
        spanFreeIndex := (spanFreeIndex + 64) / 64 * 64;
        if spanFreeIndex >= numberOfElements {
          return;
        }
        WordStart(spanFreeIndex, numberOfElements);
        RefillAllocationsCache(spanFreeIndex / 8);
        bitIndex := TrailingZeros(allocCache);
      }
    }

    /** Moves the free index from `from` on by `k`, and the cache with it. */
    method Advance(from: nat, k: nat) returns (overflows: bool)
      requires allocBits.Length == BitmapBytes(numberOfElements)
      requires Caches(allocCache, allocBits[..], from) && k <= 64 - from % 64 && from + k <= numberOfElements
      modifies this`freeIndex, this`allocCache
      ensures freeIndex == from + k && (overflows <==> k == 64)
      ensures freeIndex < numberOfElements ==> Caches(allocCache, allocBits[..], freeIndex)
    {
      overflows := ShiftCache(from, k);
      var spanFreeIndex := from + k;
      if spanFreeIndex % 64 == 0 && spanFreeIndex != numberOfElements {
        WordStart(spanFreeIndex, numberOfElements);
        RefillAllocationsCache(spanFreeIndex / 8);
      }
      freeIndex := spanFreeIndex;
    }

    /** Hands out the least free object at or after the free index, or `numberOfElements`.  `overflows` tells
        whether the cache was shifted by 64, which overflow checks reject. */
    method NextFreeIndex() returns (result: nat, overflows: bool)
      requires Valid()
      modifies this`freeIndex, this`allocCache
      ensures Valid()
      ensures result == LeastFree(SetBits(allocBits[..], numberOfElements), numberOfElements, old(freeIndex))
      ensures freeIndex == if result < numberOfElements then result + 1 else result
      ensures Model() == old(Model()).(freeIndex := freeIndex)
      ensures (Model(), result) == NextFree(old(Model()))
      ensures overflows <==> ShiftsWord(old(Model()))
    {
      overflows := false;
      if freeIndex == numberOfElements {
        return freeIndex, overflows;
      }
      ghost var bits := allocBits[..];
      var spanFreeIndex := SkipFullWords();
      if spanFreeIndex >= numberOfElements {
        FoundFree(bits, numberOfElements, freeIndex, numberOfElements);
        freeIndex := numberOfElements;
        return numberOfElements, overflows;
      }
      var bitIndex := TrailingZeros(allocCache);
      LowestCached(allocCache, bits, spanFreeIndex, numberOfElements);
      result := spanFreeIndex + bitIndex;
      if result >= numberOfElements {
        FoundFree(bits, numberOfElements, freeIndex, numberOfElements);
        freeIndex := numberOfElements;
        return numberOfElements, overflows;
      }
      FoundFree(bits, numberOfElements, freeIndex, result);
      WholeWord(freeIndex, spanFreeIndex, bitIndex);
      overflows := Advance(spanFreeIndex, bitIndex + 1);
    }

    /** Restarts allocation from the mark bits: they become the allocation bits, and a fresh, clear
        bitmap takes their place. */
    method TakeMarkBits()
      requires Valid()
      modifies this`freeIndex, this`allocBits, this`gcMarkBits, this`allocCache
      ensures Valid()
      ensures allocBits == old(gcMarkBits) && fresh(gcMarkBits)
      ensures Model() == old(Model()).(freeIndex := 0, allocBits := old(Model()).markBits, markBits := {})
    {
      freeIndex := 0;
      allocBits := gcMarkBits;
      gcMarkBits := new bv8[BitmapBytes(numberOfElements)](_ => 0);
      ClearBitmap(gcMarkBits[..], numberOfElements);
      RefillAllocationsCache(0);
    }

    /** Tells whether no object was free, and restarts allocation from the mark bits. */
    method Restart() returns (wasEmpty: bool)
      requires Valid()
      modifies this`freeIndex, this`allocBits, this`gcMarkBits, this`allocCache
      ensures Valid()
      ensures wasEmpty == (FreeObjects(old(Model())) == {})
      ensures allocBits == old(gcMarkBits) && fresh(gcMarkBits)
      ensures Model() == old(Model()).(freeIndex := 0, allocBits := old(Model()).markBits, markBits := {})
    {
      NoneFree(Model());
      var next, _ := NextFreeIndex();
      wasEmpty := next == numberOfElements;
      TakeMarkBits();
    }

    /** Sweeps the span under heap generation `g`, up to handing it on to the heap, to its size class
        or to the swept stack. */
    method Sweep(g: nat) returns (outcome: Outcome, wasEmpty: bool)
      requires Valid() && g >= 2
      modifies this
      ensures Valid()
      ensures SweepSpan(old(Model()), g).Panicked? <==> outcome.Panics?
      ensures outcome.Panics? ==> SweepSpan(old(Model()), g) == Panicked(outcome.reason)
      ensures outcome.Panics? <==>
        || old(state) != InUse || old(sweepGeneration) + 1 != g
        || |old(Model()).markBits| % 0x1_0000 > old(allocationsCount)
      ensures !outcome.Panics? ==> (outcome.Freed? <==> old(spanClass) < 2 && |old(Model()).markBits| % 0x1_0000 == 0)
      ensures spanClass == old(spanClass) && numberOfPages == old(numberOfPages)
      ensures outcome.Freed? ==> SweepSpan(old(Model()), g) == FreeToHeap(Model())
      ensures outcome.Kept? ==> SweepSpan(old(Model()), g) == KeepInUse(Model())
      ensures !outcome.Panics? ==> wasEmpty == (FreeObjects(old(Model())) == {})
      ensures !outcome.Panics? ==> allocBits == old(gcMarkBits) && fresh(gcMarkBits)
    {
      wasEmpty := false;
      if state != InUse || sweepGeneration != g - 1 {
        return Panics(BadSpanState), wasEmpty;
      }
      var freeToHeap := false;
      var marked := CountAllocations();
      var numberOfAllocations := marked % 0x1_0000;  // the cast to `u16`
      if SizeClass() == 0 && numberOfAllocations == 0 {
        needZero := true;
        freeToHeap := true;
      }
      if numberOfAllocations > allocationsCount {
        return Panics(AllocationCountIncreased), wasEmpty;
      }
      var numberFreed := allocationsCount - numberOfAllocations;
      allocationsCount := numberOfAllocations;
      wasEmpty := Restart();
      if freeToHeap || numberFreed == 0 {
        sweepGeneration := g;
      }
      if numberFreed > 0 && SizeClass() != 0 {
        sweepGeneration := g;  // by the span's size class, which keeps the span
        outcome := Kept;
      } else if freeToHeap {
        outcome := Freed;
      } else {
        outcome := Kept;
      }
    }
  }

  /** The two span classes of a size class are swept alike. */
  lemma TwinsSweptAlike(a: MemorySpanData, b: MemorySpanData, k: nat, g: nat)
    requires a.Valid() && b.Valid() && g >= 2
    requires a.spanClass == 2 * k && b.spanClass == 2 * k + 1
    requires a.Model() == b.Model().(sizeClass := a.Model().sizeClass)
    ensures SweepSpan(a.Model(), g) == SweepSpan(b.Model(), g)
  {
    TwinClasses(k, a.spanClass);
    TwinClasses(k, b.spanClass);
  }

  datatype Outcome = Panics(reason: Failure) | Freed | Kept

  lemma ClearBitmap(bits: seq<bv8>, n: nat)
    requires n <= 8 * |bits| && forall k :: 0 <= k < |bits| ==> bits[k] == 0
    ensures SetBits(bits, n) == {}
  {
    forall i: nat | i < n
      ensures !IsSet(bits, i)
    {
      BitZero(i % 8);
    }
  }

  lemma NoneFree(s: Span)
    requires s.freeIndex <= s.elements
    ensures LeastFree(s.allocBits, s.elements, s.freeIndex) == s.elements <==> FreeObjects(s) == {}
  {
    var r := LeastFree(s.allocBits, s.elements, s.freeIndex);
    if r < s.elements {
      assert r in FreeObjects(s);
    }
  }

  // ----- Facts about the cache

  lemma ComplementCaches(bits: seq<bv8>, whichByte: nat, cache: bv64)
    requires whichByte % 8 == 0 && whichByte + 8 <= |bits|
    requires cache == !FromLeBytes(bits[whichByte..whichByte + 8])
    ensures Caches(cache, bits, 8 * whichByte)
  {
    var w := FromLeBytes(bits[whichByte..whichByte + 8]);
    forall j: nat | j < 64
      ensures Bit(cache, j) == IsClear(bits, 8 * whichByte + j)
    {
      ComplementBit(bits, whichByte, w, cache, j);
    }
    WholeWordCached(cache, bits, 8 * whichByte);
  }

  lemma WholeWordCached(cache: bv64, bits: seq<bv8>, from: nat)
    requires from % 64 == 0
    requires forall j: nat :: j < 64 ==> Bit(cache, j) == IsClear(bits, from + j)
    ensures Caches(cache, bits, from)
  {
  }

  lemma ComplementBit(bits: seq<bv8>, whichByte: nat, w: bv64, cache: bv64, j: nat)
    requires whichByte % 8 == 0 && whichByte + 8 <= |bits| && j < 64
    requires w == FromLeBytes(bits[whichByte..whichByte + 8]) && cache == !w
    ensures Bit(cache, j) == IsClear(bits, 8 * whichByte + j)
  {
    BitNot(w, j);
    BitFromLeBytes(bits[whichByte..whichByte + 8], j);
    ByteOfBit(whichByte, j);
  }

  lemma ByteOfBit(whichByte: nat, j: nat)
    ensures (8 * whichByte + j) / 8 == whichByte + j / 8 && (8 * whichByte + j) % 8 == j % 8
  {
  }

  /** An empty cache means every object up to the end of the word is allocated. */
  lemma WordExhausted(cache: bv64, bits: seq<bv8>, from: nat, n: nat)
    requires Caches(cache, bits, from) && TrailingZeros(cache) == 64
    requires n <= 8 * |bits|
    ensures AllSet(bits, n, from, from + 64 - from % 64)
  {
    TrailingZerosIsLowest(cache);
    forall i | from <= i < from + 64 - from % 64 && i < n
      ensures i in SetBits(bits, n)
    {
      var j: nat := i - from;
      assert j !in CachedBits(cache);
      assert !ClearAt(bits, from, j);
    }
  }

  /** The lowest set bit of the cache is the next free object. */
  lemma LowestCached(cache: bv64, bits: seq<bv8>, from: nat, n: nat)
    requires Caches(cache, bits, from) && TrailingZeros(cache) != 64
    requires n <= 8 * |bits|
    ensures var bit := TrailingZeros(cache);
      && bit < 64 - from % 64
      && (from + bit < n ==> from + bit !in SetBits(bits, n))
      && AllSet(bits, n, from, from + bit)
  {
    var bit := TrailingZeros(cache);
    TrailingZerosIsLowest(cache);
    assert bit in CachedBits(cache);
    assert ClearAt(bits, from, bit);
    forall i | from <= i < from + bit && i < n
      ensures i in SetBits(bits, n)
    {
      var j: nat := i - from;
      assert j !in CachedBits(cache);
      assert !ClearAt(bits, from, j);
    }
  }

  lemma FoundFree(bits: seq<bv8>, n: nat, from: nat, r: nat)
    requires AllSet(bits, n, from, r) && from <= r <= n
    requires r < n ==> r !in SetBits(bits, n)
    ensures r == LeastFree(SetBits(bits, n), n, from)
  {
    LeastFreeUnique(SetBits(bits, n), n, from, r);
  }

  /** The shift is by 64 exactly when the object found is the last of its word and the search came through
      the whole word. */
  lemma WholeWord(freeIndex: nat, from: nat, bit: nat)
    requires freeIndex <= from && (from == freeIndex || from % 64 == 0) && bit < 64 - from % 64
    ensures bit + 1 == 64 <==> (from + bit) % 64 == 63 && freeIndex + 63 <= from + bit
  {
    assert (from + bit) % 64 == from % 64 + bit;
  }

  /** The word that starts at object `i` lies within the bitmap. */
  lemma WordStart(i: nat, n: nat)
    requires i % 64 == 0 && i < n
    ensures i / 8 % 8 == 0 && 8 * (i / 8) == i && i / 8 + 8 <= BitmapBytes(n)
  {
    var q := i / 64;
    assert i == 64 * q && i / 8 == 8 * q;
    assert q < (n + 63) / 64;
  }

  lemma NextWord(i: nat)
    ensures (i + 64) / 64 * 64 == i + 64 - i % 64
    ensures (i + 64 - i % 64) % 64 == 0
  {
  }

  /** Shifting the cache follows the free index, up to the end of the word. */
  lemma CacheShifted(cache: bv64, bits: seq<bv8>, from: nat, k: nat)
    requires Caches(cache, bits, from) && k <= 64 - from % 64
    ensures (from + k) % 64 != 0 ==> Caches(ShiftRight(cache, k), bits, from + k)
  {
    if (from + k) % 64 != 0 {
      ShiftedBits(cache, k, ShiftRight(cache, k));
      ShiftedWindow(CachedBits(cache), CachedBits(ShiftRight(cache, k)), bits, from, k);
    }
  }

  lemma ShiftedWindow(cached: set<nat>, shifted: set<nat>, bits: seq<bv8>, from: nat, k: nat)
    requires cached == ClearAhead(bits, from) && k < 64 - from % 64
    requires forall j: nat :: j in shifted <==> j + k in cached
    ensures shifted == ClearAhead(bits, from + k)
  {
    assert (from + k) % 64 == from % 64 + k;
    forall j: nat
      ensures j in shifted <==> j in ClearAhead(bits, from + k)
    {
      assert ClearAt(bits, from + k, j) == ClearAt(bits, from, j + k);
    }
  }

  lemma ShiftedBits(cache: bv64, k: nat, shifted: bv64)
    requires shifted == ShiftRight(cache, k)
    ensures forall j: nat :: j in CachedBits(shifted) <==> j + k in CachedBits(cache)
  {
    forall j: nat | j < 64
      ensures j in CachedBits(shifted) <==> j + k in CachedBits(cache)
    {
      BitShift(cache, k, j);
      if j + k >= 64 {
        BitBeyondWord(cache, j + k);
      }
    }
  }
}
