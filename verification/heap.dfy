/** The handle heap: bump allocation, free by marking, and a collector that slides live blocks down. */
module HandleHeap {
  import opened Bytes
  import opened HeapLayout

  const NULL: int := -1

  /** Live handles and clean blocks are in bijection; a handle points at its block. `slot[h]` is the index of its
      block. */
  predicate HandlesOk(blocks: seq<Block>, handles: seq<int>, slot: seq<int>) {
    && |handles| == |slot| == MAX_HANDLES && BlocksOk(blocks)
    && (forall h :: 0 <= h < MAX_HANDLES ==> HandleOk(blocks, handles, slot, h))
    && (forall i :: 0 <= i < |blocks| && !blocks[i].dirty ==> slot[blocks[i].handle] == i)
  }

  predicate HandleOk(blocks: seq<Block>, handles: seq<int>, slot: seq<int>, h: nat)
    requires |handles| == |slot| == MAX_HANDLES && BlocksOk(blocks) && h < MAX_HANDLES
  {
    if slot[h] == -1 then handles[h] == NULL
    else
      && 0 <= slot[h] < |blocks| && !blocks[slot[h]].dirty && blocks[slot[h]].handle == h
      && handles[h] == Offset(blocks, slot[h])
  }

  /** What the live handles mean to their owners. */
  function Payloads(blocks: seq<Block>, slot: seq<int>): map<nat, seq<byte>>
  {
    map h: nat | h < MAX_HANDLES && h < |slot| && 0 <= slot[h] < |blocks| :: blocks[slot[h]].data
  }

  // ---- allocation ----

  lemma AllocatedOk(blocks: seq<Block>, handles: seq<int>, slot: seq<int>, h: nat, data: seq<byte>)
    requires HandlesOk(blocks, handles, slot) && h < MAX_HANDLES && slot[h] == -1 && |data| < DIRTY_MASK
    ensures HandlesOk(blocks + [Block(h, data, false)], handles[h := |EncodeAll(blocks)|], slot[h := |blocks|])
  {
    var r := blocks + [Block(h, data, false)];
    var hs, ss := handles[h := |EncodeAll(blocks)|], slot[h := |blocks|];
    forall g | 0 <= g < MAX_HANDLES
      ensures HandleOk(r, hs, ss, g)
    {
      assert HandleOk(blocks, handles, slot, g);
      if g == h {
        assert r[..|blocks|] == blocks;
      } else if slot[g] != -1 {
        assert r[..slot[g]] == blocks[..slot[g]];
      }
    }
    forall i | 0 <= i < |r| && !r[i].dirty
      ensures ss[r[i].handle] == i
    {
      if i < |blocks| {
        assert slot[blocks[i].handle] == i;
      }
    }
  }

  lemma PayloadsAllocated(blocks: seq<Block>, handles: seq<int>, slot: seq<int>, h: nat, data: seq<byte>)
    requires HandlesOk(blocks, handles, slot) && h < MAX_HANDLES && slot[h] == -1
    ensures h !in Payloads(blocks, slot)
    ensures Payloads(blocks + [Block(h, data, false)], slot[h := |blocks|]) == Payloads(blocks, slot)[h := data]
  {
    forall g | 0 <= g < MAX_HANDLES
      ensures slot[g] < |blocks|
    {
      assert HandleOk(blocks, handles, slot, g);
    }
  }

  // ---- replacing the contents or the flag of one block ----

  lemma PayloadWritten(blocks: seq<Block>, handles: seq<int>, slot: seq<int>, h: nat, data: seq<byte>)
    requires HandlesOk(blocks, handles, slot) && h < MAX_HANDLES && slot[h] >= 0
    requires HandleOk(blocks, handles, slot, h) && |data| == |blocks[slot[h]].data|
    ensures var r := blocks[slot[h] := blocks[slot[h]].(data := data)];
            && HandlesOk(r, handles, slot)
            && Payloads(r, slot) == Payloads(blocks, slot)[h := data]
  {
    var i := slot[h];
    var r := blocks[i := blocks[i].(data := data)];
    ReplaceOffsets(blocks, i, r[i]);
    forall g | 0 <= g < MAX_HANDLES
      ensures HandleOk(r, handles, slot, g)
      ensures g != h && slot[g] >= 0 ==> slot[g] != i
    {
      assert HandleOk(blocks, handles, slot, g);
    }
  }

  lemma ReleasedOk(blocks: seq<Block>, handles: seq<int>, slot: seq<int>, h: nat)
    requires HandlesOk(blocks, handles, slot) && h < MAX_HANDLES && slot[h] >= 0
    requires HandleOk(blocks, handles, slot, h)
    ensures HandlesOk(blocks[slot[h] := blocks[slot[h]].(dirty := true)], handles[h := NULL], slot[h := -1])
  {
    var i := slot[h];
    var r, hs, ss := blocks[i := blocks[i].(dirty := true)], handles[h := NULL], slot[h := -1];
    ReplaceOffsets(blocks, i, r[i]);
    forall g | 0 <= g < MAX_HANDLES
      ensures HandleOk(r, hs, ss, g)
    {
      assert HandleOk(blocks, handles, slot, g);
    }
    forall j | 0 <= j < |r| && !r[j].dirty
      ensures ss[r[j].handle] == j
    {
      assert slot[blocks[j].handle] == j;
    }
  }

  lemma PayloadsReleased(blocks: seq<Block>, handles: seq<int>, slot: seq<int>, h: nat)
    requires HandlesOk(blocks, handles, slot) && h < MAX_HANDLES && slot[h] >= 0
    requires HandleOk(blocks, handles, slot, h)
    ensures Payloads(blocks[slot[h] := blocks[slot[h]].(dirty := true)], slot[h := -1]) == Payloads(blocks, slot) - {h}
  {
    forall g | 0 <= g < MAX_HANDLES && g != h && slot[g] >= 0
      ensures slot[g] != slot[h]
    {
      assert HandleOk(blocks, handles, slot, g);
    }
  }

  lemma SameLive(blocks: seq<Block>, i: nat, b: Block)
    requires BlocksOk(blocks) && i < |blocks| && !blocks[i].dirty && !b.dirty && b.Ok() && |b.data| == |blocks[i].data|
    ensures BlocksOk(blocks[i := b]) && LiveSize(blocks[i := b]) == LiveSize(blocks)
    ensures DataBytes(blocks[i := b]) == DataBytes(blocks) && |Live(blocks[i := b])| == |Live(blocks)|
  {
    hide Live, LiveSize, DataBytes;
    var l, t := blocks[..i], blocks[i + 1..];
    assert blocks == l + [blocks[i]] + t && blocks[i := b] == l + [b] + t;
    LiveSplit(l, blocks[i], t);
    LiveSplit(l, b, t);
    LiveSizeSplit(l, blocks[i], t);
    LiveSizeSplit(l, b, t);
  }

  /** Writing inside the data of a block is writing at the same place of the row. */
  lemma DataPatched(blocks: seq<Block>, i: nat, offset: nat, d: seq<byte>)
    requires BlocksOk(blocks) && i < |blocks| && offset + |d| <= |blocks[i].data|
    ensures var was := blocks[i].data;
            var b := blocks[i].(data := was[..offset] + d + was[offset + |d|..]);
            var p := Offset(blocks, i) + HEADER + offset;
            && b.Ok() && BlocksOk(blocks[i := b]) && p + |d| <= |EncodeAll(blocks)|
            && EncodeAll(blocks[i := b]) == EncodeAll(blocks)[..p] + d + EncodeAll(blocks)[p + |d|..]
  {
    var was := blocks[i].data;
    var b := blocks[i].(data := was[..offset] + d + was[offset + |d|..]);
    hide EncodeAll, Encode, Offset;
    DataEncoded(blocks[i], b, offset, d);
    ReplaceAt(blocks, i, b);
    BlockBytes(blocks, i);
    Spliced(EncodeAll(blocks), EncodeAll(blocks[i := b]), Offset(blocks, i), Encode(blocks[i]), Encode(b),
            HEADER + offset, d);
  }

  lemma DataEncoded(a: Block, b: Block, offset: nat, d: seq<byte>)
    requires a.Ok() && offset + |d| <= |a.data| && b == a.(data := a.data[..offset] + d + a.data[offset + |d|..])
    ensures b.Ok() && b.Size() == a.Size() == |Encode(a)| == |Encode(b)|
    ensures Encode(b) == Encode(a)[..HEADER + offset] + d + Encode(a)[HEADER + offset + |d|..]
  {
    var l, r := Encode(b), Encode(a)[..HEADER + offset] + d + Encode(a)[HEADER + offset + |d|..];
    assert |l| == |r|;
    forall k | 0 <= k < |l|
      ensures l[k] == r[k]
    {
      if HEADER <= k < HEADER + |a.data| {
        assert l[k] == b.data[k - HEADER] && Encode(a)[k] == a.data[k - HEADER];
      }
    }
  }

  /** If a stretch of `s` changes only in the part `d`, so does `s`. */
  lemma Spliced(s: seq<byte>, t: seq<byte>, o: nat, x: seq<byte>, y: seq<byte>, q: nat, d: seq<byte>)
    requires |x| == |y| && o + |x| <= |s| && q + |d| <= |x| && t == s[..o] + y + s[o + |y|..]
    requires s[o..o + |x|] == x && y == x[..q] + d + x[q + |d|..]
    ensures t == s[..o + q] + d + s[o + q + |d|..]
  {
    var r := s[..o + q] + d + s[o + q + |d|..];
    assert |t| == |r|;
    forall i | 0 <= i < |t|
      ensures t[i] == r[i]
    {
      if o <= i < o + |x| {
        assert x[i - o] == s[i];
      }
    }
  }

  function Overwritten(b: Block, offset: nat, d: seq<byte>): Block
    requires offset + |d| <= |b.data|
  {
    b.(data := b.data[..offset] + d + b.data[offset + |d|..])
  }

  lemma WrittenOk(blocks: seq<Block>, handles: seq<int>, slot: seq<int>, h: nat, offset: nat, d: seq<byte>)
    requires HandlesOk(blocks, handles, slot) && h < MAX_HANDLES && slot[h] >= 0
    requires HandleOk(blocks, handles, slot, h) && offset + |d| <= |blocks[slot[h]].data|
    ensures var b := Overwritten(blocks[slot[h]], offset, d);
            var p := handles[h] + HEADER + offset;
            var r := blocks[slot[h] := b];
            && HandlesOk(r, handles, slot) && Payloads(r, slot) == Payloads(blocks, slot)[h := b.data]
            && LiveSize(r) == LiveSize(blocks) && DataBytes(r) == DataBytes(blocks) && |Live(r)| == |Live(blocks)|
            && 0 <= p && p + |d| <= |EncodeAll(blocks)|
            && EncodeAll(r) == EncodeAll(blocks)[..p] + d + EncodeAll(blocks)[p + |d|..]
  {
    var b := Overwritten(blocks[slot[h]], offset, d);
    PayloadWritten(blocks, handles, slot, h, b.data);
    SameLive(blocks, slot[h], b);
    DataPatched(blocks, slot[h], offset, d);
  }

  lemma FlagEncoded(b: Block)
    requires b.Ok() && !b.dirty
    ensures Encode(b)[1] < 128 && Encode(b.(dirty := true)) == Encode(b)[1 := Encode(b)[1] + 128]
  {
  }

  /** If a stretch of `s` changes in one element only, so does `s`. */
  lemma SplicedOne(s: seq<byte>, o: nat, x: seq<byte>, y: seq<byte>, q: nat, v: byte)
    requires o + |x| <= |s| && q < |x| && s[o..o + |x|] == x && y == x[q := v]
    ensures s[..o] + y + s[o + |x|..] == s[o + q := v]
    ensures s[o + q] == x[q]
  {
    var l, r := s[..o] + y + s[o + |x|..], s[o + q := v];
    assert s[o + q] == s[o..o + |x|][q];
    forall i | 0 <= i < |l|
      ensures l[i] == r[i]
    {
      if o <= i < o + |x| {
        assert x[i - o] == s[i];
      }
    }
  }

  /** Setting the dirty bit of a block changes one byte of the row. */
  lemma FlagPatched(blocks: seq<Block>, i: nat)
    requires BlocksOk(blocks) && i < |blocks| && !blocks[i].dirty
    ensures var b := blocks[i].(dirty := true);
            var p := Offset(blocks, i) + 1;
            && BlocksOk(blocks[i := b]) && p < |EncodeAll(blocks)| && EncodeAll(blocks)[p] < 128
            && EncodeAll(blocks[i := b]) == EncodeAll(blocks)[p := EncodeAll(blocks)[p] + 128]
  {
    var b := blocks[i].(dirty := true);
    var o := Offset(blocks, i);
    var x := Encode(blocks[i]);
    ReplaceAt(blocks, i, b);
    BlockBytes(blocks, i);
    FlagEncoded(blocks[i]);
    SplicedOne(EncodeAll(blocks), o, x, Encode(b), 1, x[1] + 128);
  }

  /** Setting the four header bytes and the canary around the bytes already there makes a block of them. */
  lemma HeaderBytes(was: seq<byte>, p: nat, b: Block, now: seq<byte>)
    requires b.Ok() && !b.dirty && p + b.Size() <= |was| == |now|
    requires b.data == was[p + HEADER..p + HEADER + |b.data|]
    requires now[p] == |b.data| % 256 && now[p + 1] == |b.data| / 256 && now[p + 2] == b.handle % 256
    requires now[p + 3] == b.handle / 256 && now[p + HEADER + |b.data|] == CANARY
    requires forall i :: 0 <= i < |was| && !(p <= i < p + HEADER) && i != p + HEADER + |b.data| ==> now[i] == was[i]
    ensures now[..p + b.Size()] == was[..p] + Encode(b)
  {
    var e := Encode(b);
    assert now[..p] == was[..p];
    forall i | 0 <= i < b.Size()
      ensures now[p..p + b.Size()][i] == e[i]
    {
      if HEADER <= i < HEADER + |b.data| {
        assert e[i] == b.data[i - HEADER] == was[p + i];
      }
    }
    assert now[p..p + b.Size()] == e;
  }

  // ---- the heap object ----

  class Heap {
    const heap: array<byte>
    const handles: array<int>
    var freePtr: nat
    var handlesUsed: nat
    var freeSpace: nat
    var usedSpace: nat
    var dirtySpace: nat
    var dataSpace: nat
    ghost var blocks: seq<Block>
    ghost var slot: seq<int>

    /** The heap below the free pointer is exactly the row of blocks, and every counter is what its name says. */
    ghost predicate Valid()
      reads this, heap, handles
    {
      && heap.Length == HEAP_SIZE && handles.Length == MAX_HANDLES
      && HandlesOk(blocks, handles[..], slot)
      && freePtr <= HEAP_SIZE && heap[..freePtr] == EncodeAll(blocks)
      && Accounted()
    }

    ghost predicate Accounted()
      requires BlocksOk(blocks)
      reads this
    {
      && freePtr <= HEAP_SIZE
      && freeSpace == HEAP_SIZE - freePtr
      && usedSpace == LiveSize(blocks)
      && dirtySpace == freePtr - usedSpace
      && dataSpace == DataBytes(blocks)
      && handlesUsed == |Live(blocks)|
    }

    /** Contents by handle index. */
    ghost function Store(): map<nat, seq<byte>>
      reads this
    {
      Payloads(blocks, slot)
    }

    ghost predicate AllHandlesUsed()
      reads this
    {
      forall h: nat :: h < MAX_HANDLES ==> h in Store()
    }

    constructor ()
      ensures Valid() && fresh(heap) && fresh(handles)
      ensures Store() == map[] && freeSpace == 8192 && dirtySpace == 0
    {
      heap := new byte[HEAP_SIZE];
      handles := new int[MAX_HANDLES](_ => NULL);
      freePtr, handlesUsed, freeSpace, usedSpace, dirtySpace, dataSpace := 0, 0, HEAP_SIZE, 0, 0, 0;
      blocks := [];
      slot := seq(MAX_HANDLES, h => -1);
    }

    /** free + used + dirty = 8192 and used = data + 5 per handle, in every reachable state. */
    lemma Bookkeeping()
      requires Valid()
      ensures freeSpace + usedSpace + dirtySpace == 8192
      ensures usedSpace == dataSpace + 5 * handlesUsed
    {
      UsedIsData(blocks);
      LiveOk(blocks);
    }

    // ---- allocation ----

    /** The block gets the lowest unused handle; external handles are one larger than handle indexes. */
    method Alloc(size: nat) returns (handle: int)
      requires Valid() && size < 65536
      modifies this, heap, handles
      ensures Valid()
      ensures handle == -1 <==> old(freeSpace) < size + 5 || forall h: nat :: h < 256 ==> h in old(Store())
      ensures handle == -1 ==> Store() == old(Store()) && freeSpace == old(freeSpace)
      ensures handle != -1 ==>
                && 1 <= handle <= 256 && handle - 1 !in old(Store())
                && (forall h :: 0 <= h < handle - 1 ==> h in old(Store()))
                && handle - 1 in Store() && |Store()[handle - 1]| == size
                && Store() == old(Store())[handle - 1 := Store()[handle - 1]]
                && freeSpace == old(freeSpace) - size - OVERHEAD
      ensures dirtySpace == old(dirtySpace)
    {
      if size > HEAP_SIZE || freeSpace < size + OVERHEAD {
        return -1;
      }
      var h := FindHandle();
      assert Store() == old(Store());
      if h >= MAX_HANDLES {
        return -1;
      }
      Place(h, size);
      return h + 1;
    }

    /** Put a new block with handle index h at the free pointer. */
    method Place(h: nat, size: nat)
      requires Valid() && h < MAX_HANDLES && slot[h] == -1 && size + OVERHEAD <= freeSpace
      modifies this, heap, handles
      ensures Valid() && h !in old(Store()) && h in Store() && |Store()[h]| == size
      ensures Store() == old(Store())[h := Store()[h]]
      ensures freeSpace == old(freeSpace) - size - OVERHEAD && dirtySpace == old(dirtySpace)
    {
      ghost var b := Block(h, heap[freePtr + HEADER..freePtr + HEADER + size], false);
      ghost var r, ss, hs := blocks + [b], slot[h := |blocks|], handles[..][h := freePtr];
      PlaceMeans(h, b);
      Claim(h, size, b);
      slot := ss;
      blocks := r;
      assert handles[..] == hs;
    }

    /** The writes of an allocation: handle, header and counters. */
    method Claim(h: nat, size: nat, ghost b: Block)
      requires heap.Length == HEAP_SIZE && handles.Length == MAX_HANDLES && h < MAX_HANDLES
      requires size + OVERHEAD <= freeSpace == HEAP_SIZE - freePtr && freePtr <= HEAP_SIZE
      requires b == Block(h, heap[freePtr + HEADER..freePtr + HEADER + size], false) && b.Ok()
      modifies this`handlesUsed, this`dataSpace, this`freePtr, this`freeSpace, this`usedSpace, heap, handles
      ensures handles[..] == old(handles[..])[h := old(freePtr)] && handlesUsed == old(handlesUsed) + 1
      ensures freePtr == old(freePtr) + size + OVERHEAD && freeSpace == HEAP_SIZE - freePtr
      ensures heap[..freePtr] == old(heap[..freePtr]) + Encode(b)
      ensures dataSpace == old(dataSpace) + size && usedSpace == old(usedSpace) + size + OVERHEAD
    {
      hide Encode;
      handlesUsed := handlesUsed + 1;
      handles[h] := freePtr;
      WriteHeader(b, size, h);
      dataSpace := dataSpace + size;
      freePtr := freePtr + size + OVERHEAD;
      freeSpace := freeSpace - (size + OVERHEAD);
      usedSpace := usedSpace + size + OVERHEAD;
    }

    lemma PlaceMeans(h: nat, b: Block)
      requires Valid() && h < MAX_HANDLES && slot[h] == -1 && b.Ok() && b.handle == h && !b.dirty
      ensures var r, ss := blocks + [b], slot[h := |blocks|];
              && BlocksOk(r) && HandlesOk(r, handles[..][h := freePtr], ss)
              && h !in Store() && h in Payloads(r, ss) && Payloads(r, ss)[h] == b.data
              && Payloads(r, ss) == Store()[h := b.data]
              && EncodeAll(r) == EncodeAll(blocks) + Encode(b) && LiveSize(r) == LiveSize(blocks) + b.Size()
              && DataBytes(r) == DataBytes(blocks) + |b.data| && |Live(r)| == |Live(blocks)| + 1
    {
      AllocatedOk(blocks, handles[..], slot, h, b.data);
      PayloadsAllocated(blocks, handles[..], slot, h, b.data);
      Appended(blocks, b);
      hide HandlesOk, Encode, EncodeAll, Live, LiveSize, DataBytes;
      assert freePtr == |EncodeAll(blocks)|;
    }

    method FindHandle() returns (h: nat)
      requires Valid()
      ensures h <= MAX_HANDLES
      ensures forall g :: 0 <= g < h ==> g in Store()
      ensures h < MAX_HANDLES ==> h !in Store() && slot[h] == -1
    {
      h := 0;
      while h < MAX_HANDLES && handles[h] != NULL
        invariant 0 <= h <= MAX_HANDLES
        invariant forall g :: 0 <= g < h ==> g in Store()
      {
        assert HandleOk(blocks, handles[..], slot, h);
        h := h + 1;
      }
      if h < MAX_HANDLES {
        assert HandleOk(blocks, handles[..], slot, h);
      }
    }

    /** Header and canary of a new block at the free pointer; its data area is left as it was. */
    method WriteHeader(ghost b: Block, size: nat, h: nat)
      requires heap.Length == HEAP_SIZE && freePtr + size + OVERHEAD <= HEAP_SIZE
      requires b == Block(h, heap[freePtr + HEADER..freePtr + HEADER + size], false) && b.Ok()
      modifies heap
      ensures heap[..freePtr + size + OVERHEAD] == old(heap[..freePtr]) + Encode(b)
    {
      hide Encode;
      ghost var was := heap[..];
      heap[freePtr] := size % 256;
      heap[freePtr + 1] := size / 256;
      heap[freePtr + 2] := h % 256;
      heap[freePtr + 3] := h / 256;
      heap[freePtr + HEADER + size] := CANARY;
      HeaderBytes(was, freePtr, b, heap[..]);
    }

    // ---- using a block ----

    /** Where the block of a live handle is, and what its header says. */
    lemma Located(h: nat)
      requires Valid() && h in Store()
      ensures HandleOk(blocks, handles[..], slot, h) && 0 <= slot[h] < |blocks| && blocks[slot[h]].Ok()
      ensures var b, p := blocks[slot[h]], handles[h];
              && 0 <= p == Offset(blocks, slot[h]) && p + b.Size() <= freePtr
              && heap[..freePtr][p..p + b.Size()] == Encode(b) && heap[p..p + b.Size()] == Encode(b)
              && !b.dirty && b.handle == h && Store()[h] == b.data
              && BlockSize(heap[..], p) == b.Size() && !IsDirty(heap[..], p) && HandleField(heap[..], p) == h
              && heap[p + HEADER..p + HEADER + |b.data|] == b.data
              && heap[p + b.Size() - 1] == CANARY
    {
      assert HandleOk(blocks, handles[..], slot, h);
      var i := slot[h];
      var p := handles[h];
      BlockAt(blocks, i);
      SliceSlice(heap[..], 0, freePtr, p, p + blocks[i].Size());
      assert heap[..][p..p + blocks[i].Size()] == Encode(blocks[i]);
      HeaderOf(blocks[i], heap[..], p);
    }

    /** True exactly for live handles: pointer set, canary intact, not dirty. */
    method VerifyHandle(handle: int) returns (ok: bool)
      requires Valid() && handle != 0 && handle <= MAX_HANDLES
      ensures ok <==> handle > 0 && handle - 1 in Store()
    {
      if handle < 0 {
        return false;
      }
      var h := handle - 1;
      assert HandleOk(blocks, handles[..], slot, h);
      if handles[h] == NULL {
        return false;
      }
      Located(h);
      var p := handles[h];
      return heap[p + BlockSize(heap[..], p) - 1] == CANARY && !IsDirty(heap[..], p);
    }

    method GetSize(handle: int) returns (size: nat)
      requires Valid() && handle > 0 && handle - 1 in Store()
      ensures size == |Store()[handle - 1]|
    {
      Located(handle - 1);
      size := SizeField(heap[..], handles[handle - 1]);
    }

    /** What a caller reads through the pointer of a handle. */
    method ReadBytes(handle: int, offset: nat, n: nat) returns (d: seq<byte>)
      requires Valid() && handle > 0 && handle - 1 in Store() && offset + n <= |Store()[handle - 1]|
      ensures d == Store()[handle - 1][offset..offset + n]
    {
      Located(handle - 1);
      var p := handles[handle - 1] + HEADER;
      SliceSlice(heap[..], p, p + |Store()[handle - 1]|, offset, offset + n);
      d := heap[..][p + offset..p + offset + n];
    }

    /** What a caller writes through the pointer of a handle stays inside its block. */
    method WriteBytes(handle: int, offset: nat, d: seq<byte>)
      requires Valid() && handle > 0 && handle - 1 in Store() && offset + |d| <= |Store()[handle - 1]|
      modifies this, heap
      ensures Valid() && freeSpace == old(freeSpace) && dirtySpace == old(dirtySpace)
      ensures var was := old(Store())[handle - 1];
              Store() == old(Store())[handle - 1 := was[..offset] + d + was[offset + |d|..]]
    {
      var h := handle - 1;
      assert HandleOk(blocks, handles[..], slot, h);
      ghost var r := blocks[slot[h] := Overwritten(blocks[slot[h]], offset, d)];
      WriteMeans(h, offset, d, r);
      PutBytes(handles[h] + HEADER + offset, d, r);
    }

    lemma WriteMeans(h: nat, offset: nat, d: seq<byte>, r: seq<Block>)
      requires Valid() && h in Store() && offset + |d| <= |Store()[h]|
      requires HandleOk(blocks, handles[..], slot, h) && r == blocks[slot[h] := Overwritten(blocks[slot[h]], offset, d)]
      ensures var was := Store()[h];
              Payloads(r, slot) == Store()[h := was[..offset] + d + was[offset + |d|..]]
      ensures 0 <= handles[h] && HandlesOk(r, handles[..], slot)
      ensures var p := handles[h] + HEADER + offset;
              && p + |d| <= freePtr
              && EncodeAll(r) == EncodeAll(blocks)[..p] + d + EncodeAll(blocks)[p + |d|..]
      ensures LiveSize(r) == LiveSize(blocks) && DataBytes(r) == DataBytes(blocks) && |Live(r)| == |Live(blocks)|
    {
      WrittenOk(blocks, handles[..], slot, h, offset, d);
    }

    /** Write bytes below the free pointer; the row of blocks becomes `r`. */
    method PutBytes(p: nat, d: seq<byte>, ghost r: seq<Block>)
      requires Valid() && HandlesOk(r, handles[..], slot) && p + |d| <= freePtr
      requires EncodeAll(r) == EncodeAll(blocks)[..p] + d + EncodeAll(blocks)[p + |d|..]
      requires LiveSize(r) == LiveSize(blocks) && DataBytes(r) == DataBytes(blocks) && |Live(r)| == |Live(blocks)|
      modifies this, heap
      ensures Valid() && blocks == r && slot == old(slot)
      ensures freeSpace == old(freeSpace) && dirtySpace == old(dirtySpace)
    {
      StoreBytes(p, d, freePtr);
      blocks := r;
    }

    method StoreBytes(p: nat, d: seq<byte>, ghost limit: nat)
      requires p + |d| <= limit <= heap.Length
      modifies heap
      ensures heap[..limit] == old(heap[..limit])[..p] + d + old(heap[..limit])[p + |d|..]
    {
      ghost var was := heap[..limit];
      for i := 0 to |d|
        invariant heap[..limit] == was[..p] + d[..i] + was[p + i..]
      {
        SplicedMore(was, p, d, i);
        ghost var now := heap[..limit][p + i := d[i]];
        heap[p + i] := d[i];
        assert heap[..limit] == now;
      }
    }

    // ---- freeing ----

    /** Free a handle. Handle values at or below zero are ignored; any other must be live. */
    method Free(handle: int)
      requires Valid() && (handle > 0 ==> handle - 1 in Store())
      modifies this, heap, handles
      ensures Valid() && freeSpace == old(freeSpace)
      ensures handle <= 0 ==> Store() == old(Store()) && dirtySpace == old(dirtySpace)
      ensures handle > 0 ==>
                && Store() == old(Store()) - {handle - 1}
                && dirtySpace == old(dirtySpace) + |old(Store())[handle - 1]| + OVERHEAD
    {
      var h := handle - 1;
      if h >= 0 {
        Release(h);
      }
    }

    lemma ReleaseMeans(h: nat, r: seq<Block>)
      requires Valid() && h in Store() && HandleOk(blocks, handles[..], slot, h)
      requires r == blocks[slot[h] := blocks[slot[h]].(dirty := true)]
      ensures HandlesOk(r, handles[..][h := NULL], slot[h := -1]) && Payloads(r, slot[h := -1]) == Store() - {h}
      ensures 0 <= handles[h] && handles[h] + 3 < freePtr
      ensures SizeField(heap[..], handles[h]) == |Store()[h]|
          && BlockSize(heap[..], handles[h]) == |Store()[h]| + OVERHEAD
      ensures var p := handles[h] + 1;
              && heap[p] < 128
              && EncodeAll(r) == heap[..freePtr][p := heap[p] + 128]
      ensures LiveSize(r) == LiveSize(blocks) - |Store()[h]| - OVERHEAD
      ensures DataBytes(r) == DataBytes(blocks) - |Store()[h]| && |Live(r)| == |Live(blocks)| - 1
    {
      ReleaseKeeps(h);
      ReleaseBytes(h, r);
    }

    lemma ReleaseKeeps(h: nat)
      requires Valid() && h in Store() && HandleOk(blocks, handles[..], slot, h)
      ensures var r := blocks[slot[h] := blocks[slot[h]].(dirty := true)];
              && HandlesOk(r, handles[..][h := NULL], slot[h := -1]) && Payloads(r, slot[h := -1]) == Store() - {h}
              && LiveSize(r) == LiveSize(blocks) - |Store()[h]| - OVERHEAD
              && DataBytes(r) == DataBytes(blocks) - |Store()[h]| && |Live(r)| == |Live(blocks)| - 1
    {
      ReleasedOk(blocks, handles[..], slot, h);
      PayloadsReleased(blocks, handles[..], slot, h);
      LiveWithout(blocks, slot[h]);
      LiveSizeWithout(blocks, slot[h]);
    }

    lemma ReleaseField(h: nat)
      requires Valid() && h in Store() && HandleOk(blocks, handles[..], slot, h)
      ensures 0 <= handles[h] == Offset(blocks, slot[h]) && handles[h] + 3 < freePtr
      ensures SizeField(heap[..], handles[h]) == |Store()[h]|
          && BlockSize(heap[..], handles[h]) == |Store()[h]| + OVERHEAD
    {
      Located(h);
    }

    lemma ReleaseBytes(h: nat, r: seq<Block>)
      requires Valid() && h in Store() && HandleOk(blocks, handles[..], slot, h)
      requires r == blocks[slot[h] := blocks[slot[h]].(dirty := true)] && BlocksOk(r)
      ensures 0 <= handles[h] && handles[h] + 3 < freePtr
      ensures SizeField(heap[..], handles[h]) == |Store()[h]|
          && BlockSize(heap[..], handles[h]) == |Store()[h]| + OVERHEAD
      ensures var p := handles[h] + 1;
              heap[p] < 128 && EncodeAll(r) == heap[..freePtr][p := heap[p] + 128]
    {
      ReleaseField(h);
      FlagPatched(blocks, slot[h]);
      assert heap[..freePtr][handles[h] + 1] == heap[handles[h] + 1];
    }

    /** Clear the handle and mark its block dirty; the collector reclaims it later. */
    method Release(h: nat)
      requires Valid() && h in Store()
      modifies this, heap, handles
      ensures Valid() && freeSpace == old(freeSpace)
      ensures Store() == old(Store()) - {h}
      ensures dirtySpace == old(dirtySpace) + |old(Store())[h]| + OVERHEAD
    {
      assert HandleOk(blocks, handles[..], slot, h);
      ghost var r, ss := blocks[slot[h] := blocks[slot[h]].(dirty := true)], slot[h := -1];
      ReleaseMeans(h, r);
      Unclaim(h);
      blocks := r;
      slot := ss;
    }

    /** The writes of a release: handle, dirty bit and counters. */
    method Unclaim(h: nat)
      requires heap.Length == HEAP_SIZE && h < handles.Length && 0 <= handles[h]
          && handles[h] + 3 < freePtr <= HEAP_SIZE
      requires heap[handles[h] + 1] < 128 && handlesUsed > 0
      requires SizeField(heap[..], handles[h]) <= dataSpace && BlockSize(heap[..], handles[h]) <= usedSpace
      modifies this`handlesUsed, this`dataSpace, this`dirtySpace, this`usedSpace, heap, handles
      ensures handles[..] == old(handles[..])[h := NULL] && handlesUsed == old(handlesUsed) - 1
      ensures dataSpace == old(dataSpace) - old(SizeField(heap[..], handles[h]))
      ensures dirtySpace == old(dirtySpace) + old(BlockSize(heap[..], handles[h]))
      ensures usedSpace == old(usedSpace) - old(BlockSize(heap[..], handles[h]))
      ensures heap[..freePtr] == old(heap[..freePtr])[old(handles[h]) + 1 := old(heap[handles[h] + 1]) + 128]
    {
      var p := handles[h];
      var blockSize := BlockSize(heap[..], p);
      handles[h] := NULL;
      handlesUsed := handlesUsed - 1;
      dataSpace := dataSpace - SizeField(heap[..], p);
      heap[p + 1] := heap[p + 1] + 128;
      dirtySpace := dirtySpace + blockSize;
      usedSpace := usedSpace - blockSize;
    }
  }
}
