/** The block layer: lists of blocks in one link array, and block headers in flash. */
module FfsBlock {
  import opened Bytes
  import opened FfsLayout
  import opened FfsFlash
  import opened FfsLists
  import opened FfsFile

  const STATUS_OK: int := 0
  const STATUS_NO_FREE_SPACE: int := -2
  const STATUS_NO_FREE_FILES: int := -3
  const STATUS_EOF: int := -5
  const STATUS_ERROR: int := -6

  /** Not a status of the original: an assertion has stopped the system. */
  const HALTED: int := -100

  datatype IndexInfo = IndexInfo(dataPages: nat, freePages: nat, physLastPage: int, logicalLastPage: int,
                                 physNextFree: int)

  type Index = s: seq<byte> | |s| == SLOTS witness seq(SLOTS, i => 0 as byte)

  function IndexBytes(img: seq<byte>, copy: nat): Index
    requires |img| == BLOCK_SIZE && copy < 2
  {
    img[IndexOffset(copy, 0)..IndexOffset(copy, 0) + SLOTS]
  }

  /** The number of unused entries among the first `n`. */
  function FreeEntries(index: Index, n: nat): (r: nat)
    requires n <= SLOTS
    ensures r <= n
  {
    if n == 0 then 0 else FreeEntries(index, n - 1) + (if index[n - 1] == 255 then 1 else 0)
  }

  /** The last of the first `n` entries that eight bits with a sign cannot hold, or -1. */
  function LastWide(index: Index, n: nat): (r: int)
    requires n <= SLOTS
    ensures -1 <= r < n && (r >= 0 ==> 128 <= index[r] < 255)
    ensures forall i :: r < i < n ==> index[i] < 128 || index[i] == 255
  {
    if n == 0 then -1 else if 128 <= index[n - 1] < 255 then n - 1 else LastWide(index, n - 1)
  }

  /** What the scan of an index reports after its first `n` slots. An entry from 128 on wraps to a negative page, which
      every later entry beats: from there the scan starts over. */
  predicate InfoUpTo(index: Index, n: nat, info: IndexInfo)
    requires n <= SLOTS
  {
    var wide := LastWide(index, n);
    && info.freePages == FreeEntries(index, n)
    && (info.physNextFree == -1 ==> forall i :: 0 <= i < n ==> index[i] != 255)
    && (info.physNextFree != -1 ==>
          0 <= info.physNextFree < n && index[info.physNextFree] == 255
          && forall i :: 0 <= i < info.physNextFree ==> index[i] != 255)
    && wide <= info.physLastPage < n
    && (forall i :: wide < i < n && index[i] != 255 ==> index[i] <= info.logicalLastPage)
    && (info.physLastPage == wide ==>
          && info.logicalLastPage == (if wide < 0 then -1 else index[wide] as int - 256)
          && forall i :: wide < i < n ==> index[i] == 255)
    && (info.physLastPage > wide ==>
          index[info.physLastPage] == info.logicalLastPage != 255
          && forall i :: info.physLastPage < i < n ==> index[i] != info.logicalLastPage)
  }

  lemma AnyPages(index: Index, info: IndexInfo, n: nat)
    requires InfoUpTo(index, SLOTS, info)
    ensures InfoUpTo(index, SLOTS, info.(dataPages := n))
  {
  }

  /** What the scan makes of one more entry. */
  function Scanned(info: IndexInfo, entry: byte, i: nat): IndexInfo {
    if entry == 255 then
      info.(freePages := info.freePages + 1, physNextFree := if info.physNextFree < 0 then i else info.physNextFree)
    else if entry >= info.logicalLastPage then
      info.(logicalLastPage := if entry < 128 then entry else entry as int - 256, physLastPage := i)
    else info
  }

  lemma InfoStep(index: Index, i: nat, info: IndexInfo)
    requires i < SLOTS && InfoUpTo(index, i, info)
    ensures InfoUpTo(index, i + 1, Scanned(info, index[i], i))
    ensures info.physNextFree >= -1
  {
  }

  class BlockDriver {
    const total: nat
    const next: array<int>
    const heads: array<int>
    const flash: Flash
    var freeBlocks: nat
    var dirtyBlocks: nat
    ghost var lists: seq<seq<int>>
    ghost var owner: seq<int>

    ghost predicate Wired()
      reads this, next, heads, flash
    {
      && next.Length == |flash.img| == |owner| == total
      && heads.Length == |lists| == LISTS
      && next != heads
      && freeBlocks == |lists[FREE]|
      && dirtyBlocks == |lists[DIRTY]|
      && flash.Valid()
    }

    ghost function View(): Links
      reads this, next, heads
    {
      Links(next[..], heads[..], lists, owner)
    }

    /** A view that differs from the arrays at most in list heads other than list `l`'s. */
    ghost predicate Agrees(v: Links, l: nat)
      requires l < LISTS
      reads this, next, heads
    {
      && heads.Length == LISTS && |v.heads| == LISTS
      && v == View().(heads := v.heads)
      && v.heads[l] == heads[l]
    }

    /** A freshly erased device: every block free, in order. */
    constructor (n: nat)
      requires 0 < n < 256
      ensures Wired() && View() == AllFree(n) && LinksOk(View()) && AllOwned(View()) && total == n
      ensures fresh(next) && fresh(heads) && fresh(flash)
      ensures forall b :: 0 <= b < n ==> FreeImage(flash.img[b])
    {
      total := n;
      next := new int[n](i => if i + 1 < n then i + 1 else -1);
      heads := new int[LISTS](l => if l == FREE then 0 else -1);
      flash := new Flash(n);
      freeBlocks := n;
      dirtyBlocks := 0;
      lists := AllFree(n).lists;
      owner := AllFree(n).owner;
      new;
      AllFreeOk(n);
    }

    method AddToList(l: nat, b: nat, ghost v: Links)
      requires Wired() && l < LISTS && b < total
      requires Agrees(v, l) && LinksOk(v) && owner[b] == -1
      modifies this, next, heads
      ensures Wired()
      ensures next[..] == Push(v, l, b).next && lists == Push(v, l, b).lists && owner == Push(v, l, b).owner
      ensures heads[..] == old(heads[..])[l := Push(v, l, b).heads[l]]
    {
      ghost var list := lists[l];
      assert ListOk(v, l) && Chain(v.next, v.heads[l], list);
      NotOnList(v, l, b);
      hide LinksOk, ListOk;
      next[b] := -1;
      assert next[..] == v.next[b := -1];
      if heads[l] < 0 {
        heads[l] := b;
      } else {
        var cur := heads[l];
        ghost var i := 0;
        while next[cur] != -1
          invariant 0 <= i < |list| && cur == list[i] && 0 <= cur < total
          invariant next[..] == v.next[b := -1]
          decreases |list| - i
        {
          assert next[..][cur] == v.next[list[i]] == After(list, i);
          cur := next[cur];
          i := i + 1;
        }
        assert next[..][cur] == v.next[list[i]] == After(list, i);
        next[cur] := b;
        assert next[..] == v.next[b := -1][cur := b];
      }
      if l == DIRTY {
        dirtyBlocks := dirtyBlocks + 1;
      } else if l == FREE {
        freeBlocks := freeBlocks + 1;
      }
      lists := lists[l := list + [b]];
      owner := owner[b := l];
    }

    /** The same when the link arrays spell the lists exactly. */
    method Enlist(l: nat, b: nat)
      requires Wired() && LinksOk(View()) && l < LISTS && b < total && owner[b] == -1
      modifies this, next, heads
      ensures Wired() && View() == Push(old(View()), l, b)
      ensures l != FREE ==> freeBlocks == old(freeBlocks)
      ensures l != DIRTY ==> dirtyBlocks == old(dirtyBlocks)
    {
      ghost var v := View();
      hide LinksOk;
      AddToList(l, b, v);
      assert heads[..] == Push(v, l, b).heads;
    }

    /** Take the first free block; the caller owns it until it is put on a list. */
    method AllocBlock() returns (b: int)
      requires Wired() && LinksOk(View())
      modifies this, next, heads
      ensures Wired()
      ensures old(freeBlocks) == 0 ==>
          b == STATUS_NO_FREE_SPACE && View() == old(View()) && dirtyBlocks == old(dirtyBlocks)
      ensures old(freeBlocks) > 0 ==>
                b == old(lists[FREE][0]) && View() == Pop(old(View()), FREE, -1) && 0 <= b < total
                && freeBlocks == old(freeBlocks) - 1 && dirtyBlocks == old(dirtyBlocks)
    {
      if freeBlocks == 0 {
        return STATUS_NO_FREE_SPACE;
      }
      ghost var v := View();
      assert ListOk(v, FREE) && v.next[heads[FREE]] == After(lists[FREE], 0);
      b := heads[FREE];
      heads[FREE] := next[b];
      next[b] := -1;
      freeBlocks := freeBlocks - 1;
      lists := lists[FREE := lists[FREE][1..]];
      owner := owner[b := -1];
      assert next[..] == v.next[b := -1];
      assert heads[..] == v.heads[FREE := After(v.lists[FREE], 0)];
    }

    /** Take the first dirty block. */
    method GetDirty() returns (b: int)
      requires Wired() && LinksOk(View())
      modifies this, next, heads
      ensures Wired()
      ensures old(dirtyBlocks) == 0 ==> b == -1 && View() == old(View()) && freeBlocks == old(freeBlocks)
      ensures old(dirtyBlocks) > 0 ==>
                b == old(lists[DIRTY][0]) && View() == Pop(old(View()), DIRTY, -1) && 0 <= b < total
                && dirtyBlocks == old(dirtyBlocks) - 1 && freeBlocks == old(freeBlocks)
    {
      if dirtyBlocks == 0 {
        return -1;
      }
      ghost var v := View();
      assert ListOk(v, DIRTY) && v.next[heads[DIRTY]] == After(lists[DIRTY], 0);
      b := heads[DIRTY];
      heads[DIRTY] := next[b];
      next[b] := -1;
      dirtyBlocks := dirtyBlocks - 1;
      lists := lists[DIRTY := lists[DIRTY][1..]];
      owner := owner[b := -1];
      assert next[..] == v.next[b := -1];
      assert heads[..] == v.heads[DIRTY := After(v.lists[DIRTY], 0)];
    }

    /** Stop counting the first block of file list l as listed; the link arrays still hold it. */
    ghost method Detach(l: nat)
      requires Wired() && l < FILES && lists[l] != [] && 0 <= lists[l][0] < total
      modifies this
      ensures Wired() && freeBlocks == old(freeBlocks) && dirtyBlocks == old(dirtyBlocks)
      ensures lists == old(lists)[l := old(lists)[l][1..]] && owner == old(owner)[old(lists)[l][0] := -1]
    {
      owner := owner[lists[l][0] := -1];
      lists := lists[l := lists[l][1..]];
    }

    method ReplaceInList(l: nat, oldBlock: nat, newBlock: nat, ghost i: nat)
      requires Wired() && LinksOk(View()) && l < FILES && newBlock < total && owner[newBlock] == -1
      requires i < |lists[l]| && lists[l][i] == oldBlock
      modifies this, next, heads
      ensures Wired() && View() == Swap(old(View()), l, i, newBlock)
      ensures freeBlocks == old(freeBlocks) && dirtyBlocks == old(dirtyBlocks)
    {
      ghost var v := View();
      ghost var list := lists[l];
      assert ListOk(v, l) && Chain(v.next, v.heads[l], list);
      NotOnList(v, l, newBlock);
      if heads[l] == oldBlock {
        heads[l] := newBlock;
        assert i == 0;
      } else {
        var prev := heads[l];
        ghost var j := 0;
        while next[prev] != oldBlock
          invariant 0 <= j < i && prev == list[j] && 0 <= prev < total
          invariant next[..] == v.next && heads[..] == v.heads
          decreases i - j
        {
          assert next[..][prev] == After(list, j);
          prev := next[prev];
          j := j + 1;
        }
        assert next[..][prev] == After(list, j);
        assert j == i - 1;
        next[prev] := newBlock;
        assert next[..] == v.next[list[i - 1] := newBlock];
      }
      assert next[..][oldBlock] == v.next[list[i]] == After(list, i);
      next[newBlock] := next[oldBlock];
      lists := lists[l := list[i := newBlock]];
      owner := owner[oldBlock := -1][newBlock := l];
      assert next[..] == Swap(v, l, i, newBlock).next;
      assert heads[..] == Swap(v, l, i, newBlock).heads;
    }

    /** The block at position `index` of the list, or -1 past its end. */
    method GetBlock(l: nat, index: nat) returns (b: int)
      requires Wired() && l < LISTS && ListOk(View(), l) && index < total
      ensures b == if index < |lists[l]| then lists[l][index] else -1
    {
      var k := index;
      b := heads[l];
      ghost var i := 0;
      while k > 0 && b >= 0
        invariant 0 <= k && 0 <= i <= |lists[l]| && i == index - k
        invariant b == if i < |lists[l]| then lists[l][i] else -1
        decreases k
      {
        assert View().next[lists[l][i]] == After(lists[l], i);
        b := next[b];
        k := k - 1;
        i := i + 1;
      }
    }

    method ListSize(l: nat) returns (count: nat)
      requires Wired() && l < LISTS && ListOk(View(), l)
      ensures count == |lists[l]|
    {
      assert Chain(View().next, heads[l], lists[l]);
      hide ListOk;
      var cur := heads[l];
      count := 0;
      while cur >= 0
        invariant count <= |lists[l]|
        invariant cur == if count < |lists[l]| then lists[l][count] else -1
        decreases |lists[l]| - count
      {
        assert View().next[lists[l][count]] == After(lists[l], count);
        cur := next[cur];
        count := count + 1;
      }
    }

    method IsInList(l: nat, b: nat) returns (found: bool)
      requires Wired() && l < LISTS && ListOk(View(), l) && b < total
      ensures found <==> b in lists[l]
    {
      var cur := heads[l];
      ghost var i := 0;
      while cur >= 0
        invariant 0 <= i <= |lists[l]| && b !in lists[l][..i]
        invariant cur == if i < |lists[l]| then lists[l][i] else -1
        decreases |lists[l]| - i
      {
        if cur == b {
          return true;
        }
        assert View().next[lists[l][i]] == After(lists[l], i);
        cur := next[cur];
        i := i + 1;
      }
      return false;
    }

    // ---- headers in flash ----

    /** The flag byte if both copies agree, otherwise "invalid". */
    method ReadFlags(b: nat) returns (flags: byte)
      requires Wired() && b < total
      ensures flags == FlagsOf(flash.img[b])
    {
      var flags0 := flash.img[b][1];
      var flags1 := flash.img[b][HEADER_SIZE + 1];
      if flags0 == flags1 {
        return flags0;
      }
      return FLAGS_INVALID;
    }

    /** Clear the dirty bit in both headers, whatever the flags say, then queue the block for erasure. */
    method SetDirty(b: nat, ghost v: Links)
      requires Wired() && b < total && Agrees(v, DIRTY) && LinksOk(v) && owner[b] == -1
      modifies this, next, heads, flash
      ensures Wired() && DirtyImage(flash.img[b])
      ensures forall c :: 0 <= c < total && c != b ==> flash.img[c] == old(flash.img[c])
      ensures forall r: Region :: r.Ok() && !r.Flags? && !r.Meta? ==> r.Of(flash.img[b]) == r.Of(old(flash.img[b]))
      ensures next[..] == Push(v, DIRTY, b).next && lists == Push(v, DIRTY, b).lists && owner == Push(v, DIRTY, b).owner
      ensures heads[..] == old(heads[..])[DIRTY := Push(v, DIRTY, b).heads[DIRTY]]
      ensures freeBlocks == old(freeBlocks)
    {
      var flags := ReadFlags(b);
      flags := flags % 128;
      FlagsStored(flash.img[b]);
      flash.Put(b, Flags(0), [flags]);
      flash.Put(b, Flags(1), [flags]);
      AddToList(DIRTY, b, v);
    }

    /** Erase a block nobody owns and put it at the end of the free list. */
    method Erase(b: nat)
      requires Wired() && LinksOk(View()) && b < total && owner[b] == -1
      modifies this, next, heads, flash
      ensures Wired() && View() == Push(old(View()), FREE, b) && FreeImage(flash.img[b])
      ensures forall c :: 0 <= c < total && c != b ==> flash.img[c] == old(flash.img[c])
      ensures dirtyBlocks == old(dirtyBlocks)
    {
      flash.EraseBlock(b);
      Enlist(FREE, b);
    }

    /** The meta header, unless its copies differ or it names no possible file block. */
    method ReadMeta(b: nat) returns (meta: Option<seq<byte>>)
      requires Wired() && b < total
      ensures meta.Some? <==> ReadableMeta(flash.img[b])
      ensures meta.Some? ==> meta.value == MetaBytes(flash.img[b], 0)
    {
      var meta0 := MetaBytes(flash.img[b], 0);
      var meta1 := MetaBytes(flash.img[b], 1);
      if meta0 != meta1 {
        return None;
      }
      if meta0[0] >= FILES || meta0[2] >= total {
        return None;
      }
      return Some(meta0);
    }

    predicate ReadableMeta(img: seq<byte>)
      requires |img| == BLOCK_SIZE
    {
      MetaBytes(img, 0) == MetaBytes(img, 1) && img[0] < FILES && img[2] < total
    }

    /** Program both meta headers of a block, which must be erased there. They read back unless the block number is not
        one of this device. */
    method WriteMeta(b: nat, meta: seq<byte>) returns (ok: bool)
      requires Wired() && b < total && |meta| == META_SIZE && meta[0] < FILES
      requires Erased(MetaBytes(flash.img[b], 0)) && Erased(MetaBytes(flash.img[b], 1))
      modifies flash
      ensures Wired() && flash.img == old(flash.img)[b := WithMeta(old(flash.img[b]), meta)]
      ensures MetaHolds(flash.img[b], meta) && (ok <==> meta[2] < total)
      ensures forall r: Region :: r.Ok() && !r.Flags? && !r.Meta? ==> r.Of(flash.img[b]) == r.Of(old(flash.img[b]))
    {
      hide Program, And;
      flash.Put(b, Meta(0), meta);
      assert Meta(1).Of(flash.img[b]) == MetaBytes(old(flash.img[b]), 1);
      flash.Put(b, Meta(1), meta);
      assert Meta(0).Of(flash.img[b]) == meta;
      MetaFields(flash.img[b], meta);
      var check := ReadMeta(b);
      ok := check.Some?;
    }

    /** The slot index, unless its two copies differ. */
    method ReadIndex(b: nat) returns (index: Option<Index>)
      requires Wired() && b < total
      ensures index.Some? <==> IndexBytes(flash.img[b], 0) == IndexBytes(flash.img[b], 1)
      ensures index.Some? ==> index.value == IndexBytes(flash.img[b], 0)
    {
      var index0 := IndexBytes(flash.img[b], 0);
      var index1 := IndexBytes(flash.img[b], 1);
      if index0 != index1 {
        return None;
      }
      return Some(index0);
    }

    /** Program an erased index entry in both copies: it always reads back, and nothing else in the block changes. */
    method SetIndexEntry(b: nat, page: byte, slot: nat) returns (ok: bool)
      requires Wired() && b < total && page < DATA_PAGES && slot < SLOTS
      requires IndexAt(flash.img[b], 0, slot) == 255 && IndexAt(flash.img[b], 1, slot) == 255
      modifies flash
      ensures Wired() && flash.img == old(flash.img)[b := WithIndex(old(flash.img[b]), page, slot)]
      ensures ok && IndexAt(flash.img[b], 0, slot) == IndexAt(flash.img[b], 1, slot) == page
      ensures forall r: Region :: r.Ok() && r != Region.Index(0, slot) && r != Region.Index(1, slot) ==>
                r.Of(flash.img[b]) == r.Of(old(flash.img[b]))
    {
      IndexWrite(flash.img[b], page, 0, slot);
      IndexWrite(flash.img[b], page, 1, slot);
      hide Program, And, Erased, Region.Of, Write.Ok, IndexAt;
      flash.Put(b, Region.Index(0, slot), [page]);
      assert Region.Index(1, slot).Of(flash.img[b]) == Region.Index(1, slot).Of(old(flash.img[b]));
      flash.Put(b, Region.Index(1, slot), [page]);
      assert Region.Index(0, slot).Of(flash.img[b]) == [page];
      IndexRead(flash.img[b], page, 0, slot);
      IndexRead(flash.img[b], page, 1, slot);
      ok := IndexAt(flash.img[b], 0, slot) == page && IndexAt(flash.img[b], 1, slot) == page;
    }

    method GetIndexInfo(b: nat) returns (info: Option<IndexInfo>)
      requires Wired() && b < total
      ensures info.Some? <==> IndexBytes(flash.img[b], 0) == IndexBytes(flash.img[b], 1)
      ensures info.Some? ==>
                InfoUpTo(IndexBytes(flash.img[b], 0), SLOTS, info.value)
                && info.value.dataPages == (info.value.logicalLastPage + 1) % 256
    {
      var index := ReadIndex(b);
      if index.None? {
        return None;
      }
      var freePages: nat, physLast: int, logicalLast: int, nextFree: int := 0, -1, -1, -1;
      assert InfoUpTo(index.value, 0, IndexInfo(0, 0, -1, -1, -1));
      hide InfoUpTo;
      for i := 0 to SLOTS
        invariant InfoUpTo(index.value, i, IndexInfo(0, freePages, physLast, logicalLast, nextFree))
      {
        InfoStep(index.value, i, IndexInfo(0, freePages, physLast, logicalLast, nextFree));
        if index.value[i] == 255 {
          freePages := freePages + 1;
          if nextFree < 0 {
            nextFree := i;
          }
        } else if index.value[i] >= logicalLast {
          logicalLast := if index.value[i] < 128 then index.value[i] else index.value[i] as int - 256;
          physLast := i;
        }
      }
      info := Some(IndexInfo((logicalLast + 1) % 256, freePages, physLast, logicalLast, nextFree));
      AnyPages(index.value, IndexInfo(0, freePages, physLast, logicalLast, nextFree), info.value.dataPages);
    }
  }

  /** An unused index entry may be programmed. */
  lemma IndexWrite(img: seq<byte>, page: byte, copy: nat, slot: nat)
    requires |img| == BLOCK_SIZE && copy < 2 && slot < SLOTS && page < DATA_PAGES && IndexAt(img, copy, slot) == 255
    ensures Write(Region.Index(copy, slot), [page]).Ok() && Erased(Region.Index(copy, slot).Of(img))
  {
    assert [page][0] != 255;
  }

  lemma IndexRead(img: seq<byte>, page: byte, copy: nat, slot: nat)
    requires |img| == BLOCK_SIZE && copy < 2 && slot < SLOTS && Region.Index(copy, slot).Of(img) == [page]
    ensures IndexAt(img, copy, slot) == page
  {
    assert Region.Index(copy, slot).Of(img)[0] == page;
  }

  // ---- what the scans mean for a block that stores a log ----

  lemma IndexOfBody(crc: Checksum, img: seq<byte>, log: seq<Entry>)
    requires BodyHolds(crc, img, log)
    ensures IndexBytes(img, 0) == IndexBytes(img, 1)
    ensures forall i :: 0 <= i < SLOTS ==> IndexBytes(img, 0)[i] == if i < |log| then log[i].page else 255
  {
    forall c, i | 0 <= c < 2 && 0 <= i < SLOTS
      ensures IndexBytes(img, c)[i] == if i < |log| then log[i].page else 255
    {
      assert IndexBytes(img, c)[i] == IndexAt(img, c, i);
    }
    forall i | 0 <= i < SLOTS
      ensures IndexBytes(img, 0)[i] == IndexBytes(img, 1)[i]
    {
      assert IndexBytes(img, 0)[i] == IndexAt(img, 0, i);
      assert IndexBytes(img, 1)[i] == IndexAt(img, 1, i);
    }
  }

  lemma {:induction false} FreeOfBody(crc: Checksum, img: seq<byte>, log: seq<Entry>, n: nat)
    requires BodyHolds(crc, img, log) && n <= SLOTS
    ensures FreeEntries(IndexBytes(img, 0), n) == if n <= |log| then 0 else n - |log|
  {
    IndexOfBody(crc, img, log);
    hide BodyHolds, IndexBytes;
    if n > 0 {
      FreeOfBody(crc, img, log, n - 1);
    }
  }

  /** The next free slot is the end of the log; the last logical page is the largest page written. */
  lemma InfoOfBody(crc: Checksum, img: seq<byte>, log: seq<Entry>, info: IndexInfo)
    requires BodyHolds(crc, img, log) && InfoUpTo(IndexBytes(img, 0), SLOTS, info)
    ensures info.physNextFree == if |log| < SLOTS then |log| else -1
    ensures info.freePages == SLOTS - |log|
    ensures info.logicalLastPage == -1 <==> log == []
    ensures info.logicalLastPage >= 0 ==> Latest(log, info.logicalLastPage).Some?
    ensures forall p :: info.logicalLastPage < p ==> Latest(log, p).None?
    ensures info.logicalLastPage < DATA_PAGES
  {
    IndexOfBody(crc, img, log);
    FreeOfBody(crc, img, log, SLOTS);
    var index := IndexBytes(img, 0);
    if |log| < SLOTS {
      assert index[|log|] == 255;
    }
    if log != [] {
      assert index[0] == log[0].page;
    }
  }
}
