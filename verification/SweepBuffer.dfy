/** The two-level growable stack of spans, run by one thread at a time (sweep_buffer.rs).
    `ConcurrentPush` and `ConcurrentPop` take the same steps one atomic access at a time. */
module SweepBuffer {
  import opened Options
  import opened BlockSizes

  class SweepBuffer<T> {
    var index: nat
    var spineLength: nat
    var spineCap: nat
    var spine: array<array?<Option<T>>>
    ghost var blocks: seq<array<Option<T>>>  // the allocated blocks, in spine order
    ghost var Repr: set<object>

    /** The blocks cover the cursor, and the spine has the least capacity for them. */
    ghost predicate Valid()
      reads this, spine, blocks
      ensures Valid() ==> this in Repr
    {
      Linked() && spineCap == LeastCap(spineLength)
    }

    /** The spine and the blocks it leads to. */
    ghost predicate Linked()
      reads this, spine, blocks
      ensures Linked() ==> this in Repr
    {
      && Repr == {this, spine} + (set b | b in blocks)
      && spineLength == |blocks| <= spineCap == spine.Length
      && index <= BLOCK_ENTRIES * spineLength
      && (forall k :: 0 <= k < spineLength ==> spine[k] == blocks[k])
      && (forall k :: 0 <= k < |blocks| ==> blocks[k].Length == BLOCK_ENTRIES)
      && (forall k :: 0 <= k < |blocks| ==> blocks[k] as object != spine)
      && (forall j, k :: 0 <= j < k < |blocks| ==> blocks[j] != blocks[k])
      && (forall i :: 0 <= i < index ==> Slot(blocks, i).Some?)
    }

    /** The spans below the cursor, oldest first. */
    ghost function Contents(): (c: seq<T>)
      requires Valid()
      reads this, spine, blocks
    {
      seq(index, i requires Valid() && 0 <= i < index reads this, spine, blocks => Slot(blocks, i).value)
    }

    constructor ()
      ensures Valid() && fresh(Repr) && Contents() == []
    {
      index, spineLength, spineCap := 0, 0, 0;
      var none := new array?<Option<T>>[0];
      spine := none;
      blocks := [];
      Repr := {this, none};
    }

    method Push(span: T)
      requires Valid()
      modifies Repr
      ensures Valid() && fresh(Repr - old(Repr))
      ensures Contents() == old(Contents()) + [span]
      ensures old(blocks) <= blocks && |blocks| == |old(blocks)| + (if old(index) == BLOCK_ENTRIES * |old(blocks)| then 1 else 0)
    {
      var cursor := index;
      var block := BlockFor(cursor);
      WriteSlot(block, cursor, Some(span));
      index := index + 1;
    }

    /** The block of the cursor, added if it is the next one missing. */
    method BlockFor(cursor: nat) returns (block: array<Option<T>>)
      requires Valid() && cursor == index
      modifies this, spine
      ensures Valid() && fresh(Repr - old(Repr)) && Contents() == old(Contents()) && index == old(index)
      ensures cursor < BLOCK_ENTRIES * |blocks| && block == blocks[cursor / BLOCK_ENTRIES]
      ensures fresh(block) || block in old(Repr)
      ensures old(blocks) <= blocks && |blocks| == |old(blocks)| + (if old(index) == BLOCK_ENTRIES * |old(blocks)| then 1 else 0)
    {
      var top := cursor / BLOCK_ENTRIES;
      if top < spineLength {
        block := spine[top];
      } else {
        block := AllocateBlock(top);
      }
    }

    /** Stores `value` in slot `i`, which lies in `block`; no other slot changes. */
    method WriteSlot(block: array<Option<T>>, i: nat, value: Option<T>)
      requires Valid() && i < BLOCK_ENTRIES * |blocks| && block == blocks[i / BLOCK_ENTRIES]
      requires value.Some? || index <= i
      modifies block
      ensures Valid()
      ensures forall j :: 0 <= j < BLOCK_ENTRIES * |blocks| ==>
        Slot(blocks, j) == if j == i then value else old(Slot(blocks, j))
    {
      block[i % BLOCK_ENTRIES] := value;
      forall j | 0 <= j < BLOCK_ENTRIES * |blocks|
        ensures Slot(blocks, j) == if j == i then value else old(Slot(blocks, j))
      {
        if j != i && blocks[j / BLOCK_ENTRIES] == block {
          assert j / BLOCK_ENTRIES == i / BLOCK_ENTRIES;
        }
      }
    }

    /** Adds block `top` at the end of the spine, growing the spine when it is full. */
    method AllocateBlock(top: nat) returns (block: array<Option<T>>)
      requires Valid() && top == spineLength
      modifies this, spine
      ensures Valid() && fresh(Repr - old(Repr)) && fresh(block)
      ensures index == old(index) && blocks == old(blocks) + [block]
      ensures spineCap == if top == old(spineCap) then NewCap(old(spineCap)) else old(spineCap)
    {
      CapGrows(spineLength);
      if spineLength == spineCap {
        GrowSpine();
      }
      block := StoreBlock(top);
    }

    /** Makes a block and stores it in the next slot of a spine that has room. */
    method StoreBlock(top: nat) returns (block: array<Option<T>>)
      requires Linked() && top == spineLength < spineCap
      modifies this`spineLength, this`blocks, this`Repr, spine
      ensures Linked() && fresh(Repr - old(Repr)) && fresh(block)
      ensures blocks == old(blocks) + [block]
    {
      block := new Option<T>[BLOCK_ENTRIES];
      spine[top] := block;
      spineLength := spineLength + 1;
      blocks := blocks + [block];
      Repr := Repr + {block};
      assert forall i :: 0 <= i < index ==> Slot(blocks, i) == old(Slot(blocks, i));
    }

    /** Replaces the spine by a larger copy; the old spine is left as it was. */
    method GrowSpine()
      requires Linked() && spineLength == spineCap
      modifies this`spine, this`spineCap, this`Repr
      ensures Linked() && fresh(spine) && fresh(Repr - old(Repr))
      ensures spineLength < spineCap == NewCap(old(spineCap))
    {
      var newCap := NewCap(spineCap);
      var newSpine := new array?<Option<T>>[newCap];
      var i := 0;
      while i < spineLength
        invariant 0 <= i <= spineLength <= spineCap < newCap
        invariant spine == old(spine) && spine != newSpine && spine[..] == old(spine[..])
        invariant forall k :: 0 <= k < i ==> newSpine[k] == blocks[k]
      {
        newSpine[i] := spine[i];
        i := i + 1;
      }
      spine := newSpine;
      spineCap := newCap;
      Repr := {this, newSpine} + (set b | b in blocks);
    }

    method Pop() returns (r: Option<T>)
      requires Valid()
      modifies Repr
      ensures Valid() && Repr == old(Repr)
      ensures old(Contents()) == [] ==> r == None && Contents() == []
      ensures old(Contents()) != [] ==>
        && Contents() == old(Contents())[..|old(Contents())| - 1]
        && r == Some(old(Contents())[|old(Contents())| - 1])
        && blocks == old(blocks) && index < BLOCK_ENTRIES * |blocks| && Slot(blocks, index) == None
    {
      if index == 0 {
        return None;
      }
      var cursor := index - 1;
      var top := cursor / BLOCK_ENTRIES;
      var block: array<Option<T>> := spine[top];
      r := block[cursor % BLOCK_ENTRIES];
      assert r == Slot(blocks, cursor);
      index := cursor;
      WriteSlot(block, cursor, None);
    }
  }

  /** Slot `i` of the blocks laid end to end. */
  ghost function Slot<T>(blocks: seq<array<Option<T>>>, i: nat): Option<T>
    requires i < BLOCK_ENTRIES * |blocks|
    requires forall k :: 0 <= k < |blocks| ==> blocks[k].Length == BLOCK_ENTRIES
    reads blocks
  {
    blocks[i / BLOCK_ENTRIES][i % BLOCK_ENTRIES]
  }
}
