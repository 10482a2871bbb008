/** What a collector pass does to the row of blocks, stated on values. */
module HeapSlide {
  import opened Bytes
  import opened HeapLayout
  import opened HandleHeap

  /** Position of block i among the live blocks. */
  function Rank(blocks: seq<Block>, i: nat): nat
    requires i <= |blocks|
  {
    |Live(blocks[..i])|
  }

  lemma LivePrefix(blocks: seq<Block>, i: nat)
    requires i <= |blocks|
    ensures Rank(blocks, i) <= |Live(blocks)| && Live(blocks)[..Rank(blocks, i)] == Live(blocks[..i])
  {
    assert blocks == blocks[..i] + blocks[i..];
    LiveAppend(blocks[..i], blocks[i..]);
  }

  lemma LiveStep(blocks: seq<Block>, i: nat)
    requires i < |blocks|
    ensures Live(blocks[..i + 1]) == if blocks[i].dirty then Live(blocks[..i]) else Live(blocks[..i]) + [blocks[i]]
  {
    assert blocks[..i + 1][..i] == blocks[..i];
  }

  lemma LiveAt(blocks: seq<Block>, i: nat)
    requires i < |blocks| && !blocks[i].dirty
    ensures Rank(blocks, i) < |Live(blocks)| && Live(blocks)[Rank(blocks, i)] == blocks[i]
  {
    LiveStep(blocks, i);
    LivePrefix(blocks, i + 1);
    assert Live(blocks)[Rank(blocks, i)] == Live(blocks)[..Rank(blocks, i + 1)][Rank(blocks, i)];
  }

  /** Every live block is some clean block. */
  lemma {:induction false} LiveFrom(blocks: seq<Block>, k: nat) returns (i: nat)
    requires k < |Live(blocks)|
    ensures i < |blocks| && !blocks[i].dirty && Rank(blocks, i) == k && Live(blocks)[k] == blocks[i]
  {
    var init := blocks[..|blocks| - 1];
    if k < |Live(init)| {
      i := LiveFrom(init, k);
      assert blocks[..i] == init[..i];
    } else {
      i := |blocks| - 1;
    }
  }

  /** The slot of each handle after compaction. */
  function SlidSlots(blocks: seq<Block>, slot: seq<int>): seq<int>
    requires |slot| == MAX_HANDLES && forall h :: 0 <= h < MAX_HANDLES ==> slot[h] <= |blocks|
  {
    seq(MAX_HANDLES, h requires 0 <= h < MAX_HANDLES => if slot[h] < 0 then -1 else Rank(blocks, slot[h]))
  }

  /** The bytes of the clean blocks, packed. */
  function LiveBytes(blocks: seq<Block>): (r: seq<byte>)
    requires BlocksOk(blocks)
    ensures |r| == LiveSize(blocks)
  {
    LiveOk(blocks);
    EncodeAll(Live(blocks))
  }

  /** Where block i goes if it is live. */
  function Target(blocks: seq<Block>, i: nat): nat
    requires BlocksOk(blocks) && i <= |blocks|
  {
    LiveSize(blocks[..i])
  }

  /** Halfway through a pass: the live blocks among the first j sit packed at the bottom, block j and up are untouched,
      and the handles of moved blocks point at the new places. */
  predicate Sliding(blocks: seq<Block>, slot: seq<int>, row: seq<byte>, handles: seq<int>, j: nat) {
    && BlocksOk(blocks) && |slot| == |handles| == MAX_HANDLES && j <= |blocks|
    && |row| == |EncodeAll(blocks)|
    && Target(blocks, j) <= Offset(blocks, j) <= |row|
    && row[..Target(blocks, j)] == LiveBytes(blocks[..j])
    && row[Offset(blocks, j)..] == EncodeAll(blocks)[Offset(blocks, j)..]
    && forall h :: 0 <= h < MAX_HANDLES ==> HandleSlid(blocks, slot, handles, j, h)
  }

  predicate HandleSlid(blocks: seq<Block>, slot: seq<int>, handles: seq<int>, j: nat, h: nat)
    requires BlocksOk(blocks) && |slot| == |handles| == MAX_HANDLES && h < MAX_HANDLES
  {
    if slot[h] == -1 then handles[h] == NULL
    else
      && 0 <= slot[h] < |blocks| && !blocks[slot[h]].dirty && blocks[slot[h]].handle == h
      && handles[h] == if slot[h] < j then Target(blocks, slot[h]) else Offset(blocks, slot[h])
  }

  lemma CleanPrefix(blocks: seq<Block>, i: nat)
    requires BlocksOk(blocks) && i <= |blocks| && forall k :: 0 <= k < i ==> !blocks[k].dirty
    ensures Target(blocks, i) == Offset(blocks, i) && LiveBytes(blocks[..i]) == EncodeAll(blocks[..i])
  {
    LiveAll(blocks[..i]);
  }

  lemma SlideStart(blocks: seq<Block>, slot: seq<int>, handles: seq<int>, j: nat)
    requires HandlesOk(blocks, handles, slot) && j < |blocks|
    requires forall i :: 0 <= i < j ==> !blocks[i].dirty
    ensures Sliding(blocks, slot, EncodeAll(blocks), handles, j)
    ensures Target(blocks, j) == Offset(blocks, j)
  {
    CleanPrefix(blocks, j);
    BlockAt(blocks, j);
    forall h | 0 <= h < MAX_HANDLES
      ensures HandleSlid(blocks, slot, handles, j, h)
    {
      assert HandleOk(blocks, handles, slot, h);
      if 0 <= slot[h] < j {
        CleanPrefix(blocks, slot[h]);
      }
    }
  }

  lemma SlideDirty(blocks: seq<Block>, slot: seq<int>, row: seq<byte>, handles: seq<int>, j: nat)
    requires Sliding(blocks, slot, row, handles, j) && j < |blocks| && blocks[j].dirty
    ensures Sliding(blocks, slot, row, handles, j + 1)
    ensures Target(blocks, j + 1) == Target(blocks, j)
  {
    LiveStep(blocks, j);
    BlockAt(blocks, j);
    OffsetWithin(blocks, j + 1);
    var p, q := Offset(blocks, j), Offset(blocks, j + 1);
    assert row[q..] == row[p..][q - p..] && EncodeAll(blocks)[q..] == EncodeAll(blocks)[p..][q - p..];
    var j1 := j + 1;
    forall h | 0 <= h < MAX_HANDLES
      ensures HandleSlid(blocks, slot, handles, j1, h)
    {
      assert HandleSlid(blocks, slot, handles, j, h);
    }
  }

  /** The bytes of block j are still in place when its turn comes. */
  lemma NextInPlace(blocks: seq<Block>, slot: seq<int>, row: seq<byte>, handles: seq<int>, j: nat)
    requires Sliding(blocks, slot, row, handles, j) && j < |blocks|
    ensures var p := Offset(blocks, j);
            p + blocks[j].Size() == Offset(blocks, j + 1) <= |row| && row[p..p + blocks[j].Size()] == Encode(blocks[j])
  {
    BlockAt(blocks, j);
    var p, n := Offset(blocks, j), blocks[j].Size();
    assert row[p..p + n] == row[p..][..n] && EncodeAll(blocks)[p..p + n] == EncodeAll(blocks)[p..][..n];
  }

  /** Copy `n` bytes from `src` down to `dst`. */
  function CopiedDown(row: seq<byte>, dst: nat, src: nat, n: nat): seq<byte>
    requires dst <= src && src + n <= |row|
  {
    row[..dst] + row[src..src + n] + row[dst + n..]
  }

  lemma LiveBytesStep(blocks: seq<Block>, j: nat)
    requires BlocksOk(blocks) && j < |blocks| && !blocks[j].dirty
    ensures LiveBytes(blocks[..j + 1]) == LiveBytes(blocks[..j]) + Encode(blocks[j])
    ensures Target(blocks, j + 1) == Target(blocks, j) + blocks[j].Size()
  {
    LiveStep(blocks, j);
    LiveOk(blocks[..j]);
    Appended(Live(blocks[..j]), blocks[j]);
  }

  lemma SlideCleanBytes(blocks: seq<Block>, slot: seq<int>, row: seq<byte>, handles: seq<int>, j: nat)
    requires Sliding(blocks, slot, row, handles, j) && j < |blocks| && !blocks[j].dirty
    requires Offset(blocks, j) + blocks[j].Size() <= |row|
    ensures var r := CopiedDown(row, Target(blocks, j), Offset(blocks, j), blocks[j].Size());
            && |r| == |row| && Target(blocks, j + 1) == Target(blocks, j) + blocks[j].Size()
            && Offset(blocks, j + 1) == Offset(blocks, j) + blocks[j].Size()
            && r[..Target(blocks, j + 1)] == LiveBytes(blocks[..j + 1])
            && r[Offset(blocks, j + 1)..] == row[Offset(blocks, j + 1)..]
  {
    NextInPlace(blocks, slot, row, handles, j);
    LiveBytesStep(blocks, j);
    CopyKeeps(row, Target(blocks, j), Offset(blocks, j), blocks[j].Size());
  }

  lemma CopyKeeps(row: seq<byte>, dst: nat, src: nat, n: nat)
    requires dst <= src && src + n <= |row|
    ensures var r := CopiedDown(row, dst, src, n);
            |r| == |row| && r[..dst + n] == row[..dst] + row[src..src + n] && r[src + n..] == row[src + n..]
  {
  }

  lemma SlideClean(blocks: seq<Block>, slot: seq<int>, row: seq<byte>, handles: seq<int>, j: nat)
    requires Sliding(blocks, slot, row, handles, j) && j < |blocks| && !blocks[j].dirty
    requires slot[blocks[j].handle] == j && Offset(blocks, j) + blocks[j].Size() <= |row|
    ensures Sliding(blocks, slot, CopiedDown(row, Target(blocks, j), Offset(blocks, j), blocks[j].Size()),
                    handles[blocks[j].handle := Target(blocks, j)], j + 1)
    ensures Target(blocks, j + 1) == Target(blocks, j) + blocks[j].Size()
  {
    SlideCleanBytes(blocks, slot, row, handles, j);
    OffsetWithin(blocks, j + 1);
    var p, q := Offset(blocks, j), Offset(blocks, j + 1);
    assert row[q..] == row[p..][q - p..] && EncodeAll(blocks)[q..] == EncodeAll(blocks)[p..][q - p..];
    var hs := handles[blocks[j].handle := Target(blocks, j)];
    var j1 := j + 1;
    forall h | 0 <= h < MAX_HANDLES
      ensures HandleSlid(blocks, slot, hs, j1, h)
    {
      assert HandleSlid(blocks, slot, handles, j, h);
    }
  }

  lemma RankOffset(blocks: seq<Block>, i: nat)
    requires BlocksOk(blocks) && i < |blocks| && !blocks[i].dirty
    ensures BlocksOk(Live(blocks)) && Rank(blocks, i) < |Live(blocks)|
    ensures Live(blocks)[Rank(blocks, i)] == blocks[i] && Offset(Live(blocks), Rank(blocks, i)) == Target(blocks, i)
  {
    LiveOk(blocks);
    LiveAt(blocks, i);
    LivePrefix(blocks, i);
  }

  /** At the end of the pass the row is exactly the live blocks. */
  lemma SlideEndBytes(blocks: seq<Block>, slot: seq<int>, row: seq<byte>, handles: seq<int>)
    requires Sliding(blocks, slot, row, handles, |blocks|)
    ensures LiveSize(blocks) == Target(blocks, |blocks|) <= |row| && row[..LiveSize(blocks)] == LiveBytes(blocks)
  {
    assert blocks[..|blocks|] == blocks;
  }

  predicate SlotsOk(blocks: seq<Block>, slot: seq<int>) {
    && |slot| == MAX_HANDLES
    && (forall h :: 0 <= h < MAX_HANDLES ==>
          slot[h] == -1 || (0 <= slot[h] < |blocks| && !blocks[slot[h]].dirty && blocks[slot[h]].handle == h))
    && forall i :: 0 <= i < |blocks| && !blocks[i].dirty ==>
        blocks[i].handle < MAX_HANDLES && slot[blocks[i].handle] == i
  }

  lemma SlidSlot(blocks: seq<Block>, slot: seq<int>, h: nat)
    requires BlocksOk(blocks) && SlotsOk(blocks, slot) && h < MAX_HANDLES
    ensures var s := SlidSlots(blocks, slot)[h];
            if slot[h] == -1 then s == -1
            else 0 <= s < |Live(blocks)| && Live(blocks)[s] == blocks[slot[h]]
                 && BlocksOk(Live(blocks)) && Offset(Live(blocks), s) == Target(blocks, slot[h])
  {
    if slot[h] != -1 {
      RankOffset(blocks, slot[h]);
    }
  }

  lemma SlidBijection(blocks: seq<Block>, slot: seq<int>, k: nat)
    requires BlocksOk(blocks) && SlotsOk(blocks, slot) && k < |Live(blocks)|
    ensures Live(blocks)[k].handle < MAX_HANDLES && SlidSlots(blocks, slot)[Live(blocks)[k].handle] == k
    ensures !Live(blocks)[k].dirty
  {
    var i := LiveFrom(blocks, k);
  }

  lemma SlidPayloads(blocks: seq<Block>, slot: seq<int>)
    requires BlocksOk(blocks) && SlotsOk(blocks, slot)
    ensures Payloads(Live(blocks), SlidSlots(blocks, slot)) == Payloads(blocks, slot)
  {
    forall h | 0 <= h < MAX_HANDLES
      ensures var s := SlidSlots(blocks, slot)[h];
              if slot[h] == -1 then s == -1 else 0 <= s < |Live(blocks)| && Live(blocks)[s] == blocks[slot[h]]
    {
      SlidSlot(blocks, slot, h);
    }
  }

  /** ... and every handle points at its block. */
  lemma SlideEnd(blocks: seq<Block>, slot: seq<int>, row: seq<byte>, handles: seq<int>)
    requires Sliding(blocks, slot, row, handles, |blocks|) && SlotsOk(blocks, slot)
    ensures HandlesOk(Live(blocks), handles, SlidSlots(blocks, slot))
  {
    LiveOk(blocks);
    var ss := SlidSlots(blocks, slot);
    forall h | 0 <= h < MAX_HANDLES
      ensures HandleOk(Live(blocks), handles, ss, h)
    {
      assert HandleSlid(blocks, slot, handles, |blocks|, h);
      SlidSlot(blocks, slot, h);
    }
    forall k | 0 <= k < |Live(blocks)|
      ensures ss[Live(blocks)[k].handle] == k
    {
      SlidBijection(blocks, slot, k);
    }
  }

  /** A live handle whose block has no dirty block below it. */
  predicate Anchored(blocks: seq<Block>, slot: seq<int>, h: nat)
    requires |slot| == MAX_HANDLES && h < MAX_HANDLES
  {
    0 <= slot[h] < |blocks| && forall k :: 0 <= k < slot[h] ==> !blocks[k].dirty
  }

  /** Anchored handles point where they pointed before. */
  predicate Undisturbed(blocks: seq<Block>, slot: seq<int>, was: seq<int>, now: seq<int>) {
    && |slot| == |was| == |now| == MAX_HANDLES
    && forall h :: 0 <= h < MAX_HANDLES && Anchored(blocks, slot, h) ==> now[h] == was[h]
  }

  /** Blocks before the first dirty one do not move. */
  lemma PrefixStays(blocks: seq<Block>, slot: seq<int>, was: seq<int>, row: seq<byte>, now: seq<int>)
    requires HandlesOk(blocks, was, slot) && Sliding(blocks, slot, row, now, |blocks|)
    ensures Undisturbed(blocks, slot, was, now)
  {
    forall h | 0 <= h < MAX_HANDLES && Anchored(blocks, slot, h)
      ensures now[h] == was[h]
    {
      assert HandleOk(blocks, was, slot, h) && HandleSlid(blocks, slot, now, |blocks|, h);
      CleanPrefix(blocks, slot[h]);
    }
  }
}
