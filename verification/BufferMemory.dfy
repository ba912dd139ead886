/** The shared memory of a sweep buffer, as the concurrent machines see it: atomics hold numbers,
    pointers to spines and blocks are indices, and nothing is ever freed. */
module BufferMemory {
  import opened Options
  import opened BlockSizes

  type Span = nat

  /** A spine slot holds the index of a block, or no pointer. */
  type Spine = seq<Option<nat>>

  datatype Memory = Memory(
    index: int,
    spineLength: nat,
    cap: nat,
    spines: seq<Spine>,               // every spine ever published, the current one last
    blocks: seq<seq<Option<Span>>>)   // every block ever allocated

  function Current(m: Memory): Spine {
    if m.spines == [] then [] else m.spines[|m.spines| - 1]
  }

  /** The spine slot of the block that holds slot `i`. */
  function Top(i: nat): nat {
    i / BLOCK_ENTRIES
  }

  /** Every published spine names the same block in a slot below the published length. */
  ghost predicate SpinesAgree(m: Memory) {
    forall k, j :: 0 <= k < |m.spines| && 0 <= j < |m.spines[k]| && j < m.spineLength ==>
      m.spines[k][j] == Some(j)
  }

  /** A spine is only replaced when all its slots are in use. */
  ghost predicate OldSpinesFull(m: Memory) {
    forall k :: 0 <= k < |m.spines| - 1 ==> |m.spines[k]| <= m.spineLength
  }

  ghost predicate BlocksSized(m: Memory) {
    forall b :: 0 <= b < |m.blocks| ==> |m.blocks[b]| == BLOCK_ENTRIES
  }

  /** Slots of the current spine from `from` on hold no pointer yet. */
  ghost predicate SpareSlotsEmpty(m: Memory, from: nat) {
    forall j :: from <= j < |Current(m)| ==> Current(m)[j] == None
  }

  /** Slot `i` holds `v`, in a block the published length covers. */
  ghost predicate Holds(m: Memory, i: nat, v: Span) {
    && i / BLOCK_ENTRIES < m.spineLength
    && i / BLOCK_ENTRIES < |m.blocks|
    && |m.blocks[i / BLOCK_ENTRIES]| == BLOCK_ENTRIES
    && m.blocks[i / BLOCK_ENTRIES][i % BLOCK_ENTRIES] == Some(v)
  }

  /** Slot `i` exists and is empty. */
  ghost predicate Cleared(m: Memory, i: nat) {
    && i / BLOCK_ENTRIES < |m.blocks|
    && |m.blocks[i / BLOCK_ENTRIES]| == BLOCK_ENTRIES
    && m.blocks[i / BLOCK_ENTRIES][i % BLOCK_ENTRIES] == None
  }

  /** A buffer no operation is working on, holding `contents`, oldest first. */
  ghost predicate Quiescent(m: Memory, contents: seq<Span>) {
    && m.index == |contents|
    && m.spineLength == |m.blocks| <= |Current(m)| == m.cap
    && SpinesAgree(m)
    && OldSpinesFull(m)
    && BlocksSized(m)
    && SpareSlotsEmpty(m, m.spineLength)
    && forall i :: 0 <= i < |contents| ==> Holds(m, i, contents[i])
  }

  const EMPTY: Memory := Memory(0, 0, 0, [], [])

  lemma EmptyQuiescent()
    ensures Quiescent(EMPTY, [])
  {
  }
}
