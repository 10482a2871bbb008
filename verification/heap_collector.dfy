/** The compacting collector: two pointers walk the heap, live blocks are copied down and their handles patched. */
module HeapCollector {
  import opened Bytes
  import opened HeapLayout
  import opened HandleHeap
  import opened HeapSlide

  lemma SlotsFromHandles(blocks: seq<Block>, handles: seq<int>, slot: seq<int>)
    requires HandlesOk(blocks, handles, slot)
    ensures SlotsOk(blocks, slot)
  {
    forall h | 0 <= h < MAX_HANDLES
      ensures slot[h] == -1 || (0 <= slot[h] < |blocks| && !blocks[slot[h]].dirty && blocks[slot[h]].handle == h)
    {
      assert HandleOk(blocks, handles, slot, h);
    }
  }

  /** What the collector reads at the start of block i of an intact row. */
  lemma HeaderAt(hp: Heap, i: nat)
    requires hp.Valid() && i < |hp.blocks|
    ensures var p := Offset(hp.blocks, i);
            && Offset(hp.blocks, i + 1) == p + hp.blocks[i].Size() <= hp.freePtr <= hp.heap.Length
            && IsDirty(hp.heap[..], p) == hp.blocks[i].dirty && BlockSize(hp.heap[..], p) == hp.blocks[i].Size()
  {
    var p, n := Offset(hp.blocks, i), hp.blocks[i].Size();
    BlockAt(hp.blocks, i);
    SliceSlice(hp.heap[..], 0, hp.freePtr, p, p + n);
    assert hp.heap[..hp.freePtr][p..p + n] == Encode(hp.blocks[i]);
    HeaderOf(hp.blocks[i], hp.heap[..], p);
  }

  /** If no block is dirty there is no dirty space. */
  lemma SomeDirty(hp: Heap) returns (k: nat)
    requires hp.Valid() && hp.dirtySpace > 0
    ensures k < |hp.blocks| && hp.blocks[k].dirty && BlocksOk(hp.blocks) && Offset(hp.blocks, 0) == 0
  {
    if i :| 0 <= i < |hp.blocks| && hp.blocks[i].dirty {
      k := i;
    } else {
      LiveAll(hp.blocks);
    }
  }

  /** First loop: skip clean blocks up to the first dirty one. */
  method FindDirty(hp: Heap) returns (dirty: nat, ghost i: nat)
    requires hp.Valid() && hp.dirtySpace > 0
    ensures dirty + OVERHEAD <= hp.freePtr <= hp.heap.Length && IsDirty(hp.heap[..], dirty)
    ensures i < |hp.blocks| && hp.blocks[i].dirty && dirty == Offset(hp.blocks, i)
    ensures forall k :: 0 <= k < i ==> !hp.blocks[k].dirty
  {
    hide Heap.Valid, IsDirty, BlockSize, Offset, BlocksOk;
    ghost var k := SomeDirty(hp);
    dirty := 0;
    i := 0;
    HeaderAt(hp, 0);
    while !IsDirty(hp.heap[..], dirty) && dirty < hp.freePtr
      invariant i <= k && dirty == Offset(hp.blocks, i) && dirty + OVERHEAD <= hp.freePtr <= hp.heap.Length
      invariant IsDirty(hp.heap[..], dirty) == hp.blocks[i].dirty
          && BlockSize(hp.heap[..], dirty) == hp.blocks[i].Size()
      invariant forall j :: 0 <= j < i ==> !hp.blocks[j].dirty
      decreases |hp.blocks| - i
    {
      HeaderAt(hp, i);
      dirty := dirty + BlockSize(hp.heap[..], dirty);
      i := i + 1;
      HeaderAt(hp, i);
    }
  }

  lemma CopyNone(was: seq<byte>, dst: nat, src: nat)
    requires dst <= src <= |was|
    ensures CopiedDown(was, dst, src, 0) == was
  {
  }

  lemma CopyStep(was: seq<byte>, dst: nat, src: nat, k: nat)
    requires dst <= src && src + k < |was|
    ensures var row := CopiedDown(was, dst, src, k);
            |row| == |was| && row[src + k] == was[src + k]
            && CopiedDown(was, dst, src, k + 1) == row[dst + k := was[src + k]]
  {
  }

  /** The forward byte copy of a block to a lower place; the ranges may overlap. */
  method CopyDown(heap: array<byte>, dst: nat, src: nat, n: nat, ghost limit: nat)
    requires dst <= src && src + n <= limit <= heap.Length
    modifies heap
    ensures heap[..limit] == CopiedDown(old(heap[..limit]), dst, src, n)
  {
    hide CopiedDown;
    ghost var was := heap[..limit];
    CopyNone(was, dst, src);
    for k := 0 to n
      invariant heap[..limit] == CopiedDown(was, dst, src, k)
    {
      CopyStep(was, dst, src, k);
      ghost var next := heap[..limit][dst + k := heap[src + k]];
      assert heap[..limit][src + k] == heap[src + k];
      heap[dst + k] := heap[src + k];
      assert heap[..limit] == next;
    }
  }

  /** The collector mid-pass: `blocks` is the row as it was, the pointers stand before block j. */
  ghost predicate MidPass(hp: Heap, j: nat, dirty: nat, clean: nat)
    reads hp, hp.heap, hp.handles
  {
    && hp.heap.Length == HEAP_SIZE && hp.handles.Length == MAX_HANDLES
    && SlotsOk(hp.blocks, hp.slot) && BlocksOk(hp.blocks) && hp.Accounted()
    && hp.freePtr == |EncodeAll(hp.blocks)|
    && Sliding(hp.blocks, hp.slot, hp.heap[..hp.freePtr], hp.handles[..], j)
    && dirty == Target(hp.blocks, j) && clean == Offset(hp.blocks, j)
  }

  /** What the collector reads at its clean pointer. */
  lemma HeaderNext(hp: Heap, j: nat, dirty: nat, clean: nat)
    requires MidPass(hp, j, dirty, clean) && j < |hp.blocks|
    ensures var b := hp.blocks[j];
            && clean + b.Size() == Offset(hp.blocks, j + 1) <= hp.freePtr
            && IsDirty(hp.heap[..], clean) == b.dirty && BlockSize(hp.heap[..], clean) == b.Size()
            && HandleField(hp.heap[..], clean) == b.handle
  {
    var b := hp.blocks[j];
    NextInPlace(hp.blocks, hp.slot, hp.heap[..hp.freePtr], hp.handles[..], j);
    SliceSlice(hp.heap[..], 0, hp.freePtr, clean, clean + b.Size());
    HeaderOf(b, hp.heap[..], clean);
  }

  lemma AtEnd(hp: Heap, j: nat, dirty: nat, clean: nat)
    requires MidPass(hp, j, dirty, clean)
    ensures clean < hp.freePtr <==> j < |hp.blocks|
    ensures clean <= hp.freePtr
  {
    OffsetWithin(hp.blocks, j);
    if j < |hp.blocks| {
      BlockAt(hp.blocks, j);
    }
  }

  /** Inner loop: skip dirty blocks. */
  method SkipDirty(hp: Heap, dirty: nat, start: nat, ghost j0: nat) returns (clean: nat, ghost j: nat)
    requires MidPass(hp, j0, dirty, start) && j0 < |hp.blocks|
    ensures MidPass(hp, j, dirty, clean) && j0 <= j
    ensures j < |hp.blocks| ==> !hp.blocks[j].dirty
  {
    clean, j := start, j0;
    HeaderNext(hp, j, dirty, clean);
    while IsDirty(hp.heap[..], clean)
      invariant j0 <= j < |hp.blocks| && MidPass(hp, j, dirty, clean) && clean + OVERHEAD <= hp.freePtr
      invariant IsDirty(hp.heap[..], clean) == hp.blocks[j].dirty
          && BlockSize(hp.heap[..], clean) == hp.blocks[j].Size()
      decreases |hp.blocks| - j
    {
      SlideDirty(hp.blocks, hp.slot, hp.heap[..hp.freePtr], hp.handles[..], j);
      HeaderNext(hp, j, dirty, clean);
      clean := clean + BlockSize(hp.heap[..], clean);
      j := j + 1;
      AtEnd(hp, j, dirty, clean);
      if clean >= hp.freePtr {
        return;
      }
      HeaderNext(hp, j, dirty, clean);
    }
  }

  /** Move the clean block at `clean` down to `dirty` and patch its handle. */
  method MoveBlock(hp: Heap, dirty: nat, clean: nat, ghost j: nat) returns (nextDirty: nat, nextClean: nat)
    requires MidPass(hp, j, dirty, clean) && j < |hp.blocks| && !hp.blocks[j].dirty
    modifies hp.heap, hp.handles
    ensures MidPass(hp, j + 1, nextDirty, nextClean)
  {
    HeaderNext(hp, j, dirty, clean);
    ghost var row, hs := hp.heap[..hp.freePtr], hp.handles[..];
    SlideClean(hp.blocks, hp.slot, row, hs, j);
    var n := BlockSize(hp.heap[..], clean);
    nextClean := clean + n;
    hp.handles[HandleField(hp.heap[..], clean)] := dirty;
    CopyDown(hp.heap, dirty, clean, n, hp.freePtr);
    nextDirty := dirty + n;
    assert hp.handles[..] == hs[hp.blocks[j].handle := dirty];
  }

  /** One wake-up of the collector thread: nothing below the threshold, otherwise a full pass. */
  method Collect(hp: Heap)
    requires hp.Valid()
    modifies hp, hp.heap, hp.handles
    ensures hp.Valid() && hp.Store() == old(hp.Store())
    ensures old(hp.dirtySpace) < 1024 ==>
              hp.blocks == old(hp.blocks) && hp.freePtr == old(hp.freePtr) && hp.handles[..] == old(hp.handles[..])
    ensures old(hp.dirtySpace) >= 1024 ==>
              && hp.blocks == Live(old(hp.blocks))
              && Undisturbed(old(hp.blocks), old(hp.slot), old(hp.handles[..]), hp.handles[..])
              && hp.dirtySpace == 0 && hp.freePtr == hp.usedSpace == old(hp.usedSpace)
              && hp.freeSpace == old(hp.freeSpace) + old(hp.dirtySpace)
  {
    if hp.dirtySpace < DEFRAG_THRESHOLD {
      return;
    }
    Pass(hp);
  }

  /** A full pass. Blocks before the first dirty one stay where they are; nothing behind a live handle changes. */
  method Pass(hp: Heap)
    requires hp.Valid() && hp.dirtySpace > 0
    modifies hp, hp.heap, hp.handles
    ensures hp.Valid() && hp.Store() == old(hp.Store())
    ensures hp.blocks == Live(old(hp.blocks))
    ensures Undisturbed(old(hp.blocks), old(hp.slot), old(hp.handles[..]), hp.handles[..])
    ensures hp.dirtySpace == 0 && hp.freePtr == hp.usedSpace == old(hp.usedSpace)
    ensures hp.freeSpace == old(hp.freeSpace) + old(hp.dirtySpace)
  {
    var dirty, j := Start(hp);
    dirty := Slide(hp, dirty, j);
    PrefixStays(hp.blocks, hp.slot, old(hp.handles[..]), hp.heap[..hp.freePtr], hp.handles[..]);
    Finish(hp, dirty);
  }

  /** Both pointers start at the first dirty block. */
  method Start(hp: Heap) returns (dirty: nat, ghost j: nat)
    requires hp.Valid() && hp.dirtySpace > 0
    ensures MidPass(hp, j, dirty, dirty)
  {
    dirty, j := FindDirty(hp);
    SlotsFromHandles(hp.blocks, hp.handles[..], hp.slot);
    SlideStart(hp.blocks, hp.slot, hp.handles[..], j);
  }

  /** Outer loop: skip dirty blocks, move the next clean one down. */
  method Slide(hp: Heap, start: nat, ghost j0: nat) returns (dirty: nat)
    requires MidPass(hp, j0, start, start)
    modifies hp.heap, hp.handles
    ensures MidPass(hp, |hp.blocks|, dirty, hp.freePtr)
  {
    var clean: nat := start;
    ghost var j := j0;
    dirty := start;
    AtEnd(hp, j, dirty, clean);
    while clean < hp.freePtr
      invariant MidPass(hp, j, dirty, clean) && clean <= hp.freePtr && (clean < hp.freePtr <==> j < |hp.blocks|)
      decreases |hp.blocks| - j
    {
      clean, j := SkipDirty(hp, dirty, clean, j);
      AtEnd(hp, j, dirty, clean);
      if clean >= hp.freePtr {
        break;
      }
      dirty, clean := MoveBlock(hp, dirty, clean, j);
      j := j + 1;
      AtEnd(hp, j, dirty, clean);
    }
  }

  /** The free pointer comes down to the end of the packed blocks. */
  method Finish(hp: Heap, dirty: nat)
    requires MidPass(hp, |hp.blocks|, dirty, hp.freePtr)
    modifies hp
    ensures hp.Valid() && hp.Store() == old(hp.Store())
    ensures hp.blocks == Live(old(hp.blocks))
    ensures hp.dirtySpace == 0 && hp.freePtr == hp.usedSpace == old(hp.usedSpace)
    ensures hp.freeSpace == old(hp.freeSpace) + old(hp.dirtySpace)
  {
    ghost var row, live, slots := hp.heap[..hp.freePtr], Live(hp.blocks), SlidSlots(hp.blocks, hp.slot);
    Packed(hp.blocks, hp.slot, row, hp.handles[..]);
    assert hp.heap[..dirty] == row[..dirty];
    Settle(hp, dirty, live, slots);
  }

  /** The bookkeeping at the end of a pass, over a heap whose first `top` bytes are the row `live`. */
  method Settle(hp: Heap, top: nat, ghost live: seq<Block>, ghost slots: seq<int>)
    requires hp.heap.Length == HEAP_SIZE && hp.handles.Length == MAX_HANDLES && top <= HEAP_SIZE
    requires HandlesOk(live, hp.handles[..], slots) && hp.heap[..top] == EncodeAll(live) && top == LiveSize(live)
    requires hp.freeSpace + hp.dirtySpace == HEAP_SIZE - top && hp.usedSpace == top
    requires hp.dataSpace == DataBytes(live) && hp.handlesUsed == |Live(live)|
    modifies hp
    ensures hp.Valid() && hp.blocks == live && hp.slot == slots
    ensures hp.dirtySpace == 0 && hp.freePtr == hp.usedSpace == top
    ensures hp.freeSpace == old(hp.freeSpace) + old(hp.dirtySpace)
  {
    hide EncodeAll, HandlesOk, LiveSize, DataBytes, Live;
    ghost var handles, row := hp.handles[..], hp.heap[..top];
    LiveBlocksOk(live, handles, slots);
    hp.freePtr := top;
    hp.freeSpace := hp.freeSpace + hp.dirtySpace;
    hp.dirtySpace := 0;
    hp.blocks, hp.slot := live, slots;
    assert hp.handles[..] == handles && hp.heap[..hp.freePtr] == row;
  }

  lemma LiveBlocksOk(blocks: seq<Block>, handles: seq<int>, slot: seq<int>)
    requires HandlesOk(blocks, handles, slot)
    ensures BlocksOk(blocks)
  {
  }

  /** A finished slide is a valid heap holding the live blocks only, with every payload where its handle says. */
  lemma Packed(blocks: seq<Block>, slot: seq<int>, row: seq<byte>, handles: seq<int>)
    requires Sliding(blocks, slot, row, handles, |blocks|) && SlotsOk(blocks, slot)
    ensures HandlesOk(Live(blocks), handles, SlidSlots(blocks, slot))
    ensures Payloads(Live(blocks), SlidSlots(blocks, slot)) == Payloads(blocks, slot)
    ensures Target(blocks, |blocks|) == LiveSize(blocks) <= |row| && row[..LiveSize(blocks)] == EncodeAll(Live(blocks))
    ensures Live(Live(blocks)) == Live(blocks) && LiveSize(Live(blocks)) == LiveSize(blocks)
    ensures DataBytes(Live(blocks)) == DataBytes(blocks)
  {
    SlideEnd(blocks, slot, row, handles);
    SlideEndBytes(blocks, slot, row, handles);
    SlidPayloads(blocks, slot);
    LiveTwice(blocks);
  }

  lemma LiveTwice(blocks: seq<Block>)
    requires BlocksOk(blocks)
    ensures BlocksOk(Live(blocks)) && Live(Live(blocks)) == Live(blocks) && LiveSize(Live(blocks)) == LiveSize(blocks)
    ensures DataBytes(Live(blocks)) == DataBytes(blocks)
  {
    LiveOk(blocks);
    LiveAll(Live(blocks));
    UsedIsData(blocks);
    UsedIsData(Live(blocks));
  }
}
