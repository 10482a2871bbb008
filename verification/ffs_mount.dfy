/** Mounting: rebuild every list, size and file from what is in flash. */
module FfsMount {
  import opened Bytes
  import opened FfsLayout
  import opened FfsLists
  import opened FfsFile
  import opened FfsBlock
  import opened FfsDisk
  import opened FfsPage

  /** RAM arrays of the right size; their contents do not matter. The flash is the one of consistent state `d`. */
  ghost predicate Mountable(fs: FileSystem, d: Disk)
    reads fs, fs.dev, fs.dev.next, fs.dev.heads, fs.dev.flash, fs.sizes
  {
    && DiskOk(fs.crc, d) && fs.dev.flash.Valid()
    && 0 < fs.dev.total < 256 && |d.flash| == fs.dev.total
    && fs.dev.next.Length == |fs.dev.flash.img| == fs.dev.total
    && fs.dev.heads.Length == LISTS && fs.sizes.Length == FILES
    && fs.dev.next != fs.dev.heads && fs.sizes != fs.dev.next && fs.sizes != fs.dev.heads
    && fs.dev.flash.img == d.flash
  }

  /** The owner of a block as far as its flags tell. */
  function Scanned(d: Disk, b: nat, files: bool): int
    requires b < |d.links.owner|
  {
    if d.links.owner[b] < FREE && !files then -1 else d.links.owner[b]
  }

  /** The first `i` blocks are listed by their owner, all others not at all. */
  ghost predicate ScanUpTo(fs: FileSystem, d: Disk, i: nat, j: nat)
    reads fs, fs.dev, fs.dev.next, fs.dev.heads, fs.dev.flash, fs.sizes
  {
    && Mountable(fs, d) && fs.dev.Wired() && LinksOk(fs.dev.View())
    && forall b :: 0 <= b < fs.dev.total ==> fs.dev.owner[b] == if b < i then Scanned(d, b, b < j) else -1
  }

  /** What the flags of a block say about it. */
  lemma FlagsTell(crc: Checksum, d: Disk, b: nat)
    requires DiskOk(crc, d) && b < |d.flash|
    ensures |d.flash[b]| == BLOCK_SIZE && 0 <= d.links.owner[b] < LISTS
    ensures d.flash[b][1] == d.flash[b][HEADER_SIZE + 1]
    ensures d.flash[b][1] == FLAGS_FREE <==> d.links.owner[b] == FREE
    ensures d.flash[b][1] < 128 <==> d.links.owner[b] == DIRTY
    ensures d.flash[b][1] == FLAGS_VALID <==> d.links.owner[b] < FREE
    ensures d.links.owner[b] < FREE ==>
              && MetaBytes(d.flash[b], 0) == MetaBytes(d.flash[b], 1)
              && d.flash[b][0] == d.links.owner[b] && d.flash[b][2] < |d.links.lists[d.flash[b][0]]|
              && d.links.lists[d.flash[b][0]][d.flash[b][2]] == b
  {
    assert ImageOk(d, b) && BlockOwned(d.links, b);
    var f := d.links.owner[b];
    if f < FREE {
      assert ListOk(d.links, f);
      var k :| 0 <= k < |d.links.lists[f]| && d.links.lists[f][k] == b;
      ValidFlags(crc, d, f, k);
    }
  }

  /** Forget everything in RAM. */
  method Reset(fs: FileSystem, ghost d: Disk)
    requires Mountable(fs, d)
    modifies fs.dev, fs.dev.next, fs.dev.heads
    ensures ScanUpTo(fs, d, 0, 0)
  {
    var dev := fs.dev;
    forall i | 0 <= i < dev.next.Length { dev.next[i] := -1; }
    forall l | 0 <= l < LISTS { dev.heads[l] := -1; }
    dev.freeBlocks := 0;
    dev.dirtyBlocks := 0;
    dev.lists := Nothing(dev.total).lists;
    dev.owner := Nothing(dev.total).owner;
    assert dev.View() == Nothing(dev.total);
    NothingOk(dev.total);
  }

  /** First pass: free and dirty blocks, by their flags. */
  method ScanFreeAndDirty(fs: FileSystem, ghost d: Disk)
    requires ScanUpTo(fs, d, 0, 0)
    modifies fs.dev, fs.dev.next, fs.dev.heads
    ensures ScanUpTo(fs, d, fs.dev.total, 0)
  {
    for i := 0 to fs.dev.total
      invariant ScanUpTo(fs, d, i, 0)
    {
      FlagsTell(fs.crc, d, i);
      var flags := fs.dev.ReadFlags(i);
      if flags == FLAGS_FREE {
        Listed(fs, FREE, i);
      } else if flags < 128 {
        Listed(fs, DIRTY, i);
      }
    }
  }

  /** AddToList with the effect on owners spelled out. */
  method Listed(fs: FileSystem, l: nat, b: nat)
    requires fs.dev.Wired() && LinksOk(fs.dev.View()) && l < LISTS && b < fs.dev.total && fs.dev.owner[b] == -1
    modifies fs.dev, fs.dev.next, fs.dev.heads
    ensures fs.dev.Wired() && LinksOk(fs.dev.View())
    ensures fs.dev.owner == old(fs.dev.owner)[b := l]
    ensures fs.dev.lists == old(fs.dev.lists)[l := old(fs.dev.lists)[l] + [b]]
  {
    PushOk(fs.dev.View(), l, b);
    fs.dev.Enlist(l, b);
  }

  /** Second pass: file blocks, by the file id in their meta. */
  method ScanFiles(fs: FileSystem, ghost d: Disk)
    requires ScanUpTo(fs, d, fs.dev.total, 0)
    modifies fs.dev, fs.dev.next, fs.dev.heads
    ensures ScanUpTo(fs, d, fs.dev.total, fs.dev.total)
  {
    var dev := fs.dev;
    for i := 0 to dev.total
      invariant ScanUpTo(fs, d, dev.total, i)
    {
      FlagsTell(fs.crc, d, i);
      var flags := dev.ReadFlags(i);
      if flags == FLAGS_VALID {
        ListBound(d.links, d.flash[i][0]);
        var meta := dev.ReadMeta(i);
        assert meta.value[0] == d.flash[i][0];
        Listed(fs, meta.value[0], i);
      }
    }
  }

  // ---- one file ----

  /** All blocks are listed by their owner, and file f's list is already in order if `f < done`. */
  ghost predicate Sorting(fs: FileSystem, d: Disk, done: nat)
    reads fs, fs.dev, fs.dev.next, fs.dev.heads, fs.dev.flash, fs.sizes
  {
    && Mountable(fs, d) && fs.Shaped() && LinksOk(fs.dev.View())
    && fs.raw == d.raw && fs.logs == d.logs
    && forall f :: 0 <= f < FILES && f < done ==> fs.dev.lists[f] == d.links.lists[f] && fs.sizes[f] == d.sizes[f]
  }

  /** The block map of a file with block list `blocks`, after the blocks in `seen` were noted. */
  function MapOf(total: nat, blocks: seq<int>, seen: seq<int>): seq<int> {
    seq(total, k requires 0 <= k < total => if k < |blocks| && blocks[k] in seen then blocks[k] else -1)
  }

  lemma MapStep(total: nat, blocks: seq<int>, seen: seq<int>, k: nat)
    requires Distinct(blocks) && k < |blocks| <= total
    ensures |MapOf(total, blocks, seen)| == total
    ensures MapOf(total, blocks, seen + [blocks[k]]) == MapOf(total, blocks, seen)[k := blocks[k]]
  {
  }

  /** One step along the list of a file. */
  lemma WalkStep(fs: FileSystem, f: nat, d: Disk, i: nat)
    requires Sorting(fs, d, f) && f < FILES && i <= |fs.dev.lists[f]|
    ensures fs.dev.Wired()
    ensures fs.dev.heads[f] == First(fs.dev.lists[f])
    ensures i < |fs.dev.lists[f]| ==>
              var b := fs.dev.lists[f][i];
              0 <= b < fs.dev.total && fs.dev.owner[b] == f && fs.dev.next[b] == After(fs.dev.lists[f], i)
  {
    var v, list := fs.dev.View(), fs.dev.lists[f];
    assert ListOk(v, f);
    if i < |list| {
      assert v.next[list[i]] == After(list, i);
    }
  }

  lemma SameMembers(fs: FileSystem, f: nat, d: Disk)
    requires Sorting(fs, d, f) && f < FILES && fs.dev.owner == d.links.owner
    ensures Distinct(d.links.lists[f]) && |d.links.lists[f]| <= fs.dev.total
    ensures MapOf(fs.dev.total, d.links.lists[f], fs.dev.lists[f]) == MapOf(fs.dev.total, d.links.lists[f],
        d.links.lists[f])
  {
    ListBound(d.links, f);
    assert ListOk(d.links, f);
    var list, blocks := fs.dev.lists[f], d.links.lists[f];
    forall k | 0 <= k < |blocks|
      ensures blocks[k] in list
    {
      assert BlockOwned(fs.dev.View(), blocks[k]);
    }
  }

  lemma MapNone(total: nat, blocks: seq<int>)
    ensures MapOf(total, blocks, []) == seq(total, _ => -1)
  {
  }

  /** Where the k-th block of the file is, read from the meta of its blocks; -1 where there is none. */
  method MapBlocks(fs: FileSystem, f: nat, ghost d: Disk) returns (fileMap: seq<int>)
    requires Sorting(fs, d, f) && f < FILES && fs.dev.owner == d.links.owner
    ensures |d.links.lists[f]| <= fs.dev.total
    ensures fileMap == MapOf(fs.dev.total, d.links.lists[f], d.links.lists[f])
  {
    WalkStep(fs, f, d, 0);
    SameMembers(fs, f, d);
    ghost var list, blocks := fs.dev.lists[f], d.links.lists[f];
    hide Sorting, MapOf, Distinct;
    fileMap := seq(fs.dev.total, _ => -1);
    MapNone(fs.dev.total, blocks);
    assert list[..0] == [];
    var block := fs.dev.heads[f];
    ghost var i := 0;
    while block >= 0
      invariant 0 <= i <= |list| && block == if i < |list| then list[i] else -1
      invariant fileMap == MapOf(fs.dev.total, blocks, list[..i])
      decreases |list| - i
    {
      WalkStep(fs, f, d, i);
      MetaTells(fs, f, block, d);
      var meta := fs.dev.ReadMeta(block);
      MapStep(fs.dev.total, blocks, list[..i], meta.value[2]);
      assert list[..i + 1] == list[..i] + [list[i]];
      fileMap := fileMap[meta.value[2] := block];
      block := fs.dev.next[block];
      i := i + 1;
    }
    WalkStep(fs, f, d, i);
    assert list[..i] == list;
  }

  lemma MetaTells(fs: FileSystem, f: nat, block: nat, d: Disk)
    requires Sorting(fs, d, f) && f < FILES && fs.dev.owner == d.links.owner && block < fs.dev.total
        && fs.dev.owner[block] == f
    ensures fs.dev.ReadableMeta(fs.dev.flash.img[block])
    ensures var k := fs.dev.flash.img[block][2];
            k < |d.links.lists[f]| <= fs.dev.total && d.links.lists[f][k] == block
            && forall j :: 0 <= j < |d.links.lists[f]| && d.links.lists[f][j] == block ==> j == k
  {
    FlagsTell(fs.crc, d, block);
    ListBound(d.links, f);
    assert ListOk(d.links, f);
    assert fs.dev.flash.img[block] == d.flash[block];
  }

  /** Is some block of the file missing while a later one exists? */
  method HasGap(fileMap: seq<int>) returns (gap: bool)
    ensures gap <==> exists i :: 0 <= i < |fileMap| - 1 && fileMap[i] == -1 && fileMap[i + 1] >= 0
  {
    gap := false;
    if |fileMap| == 0 {
      return;
    }
    for i := 0 to |fileMap| - 1
      invariant gap <==> exists j :: 0 <= j < i && fileMap[j] == -1 && fileMap[j + 1] >= 0
    {
      if fileMap[i] == -1 && fileMap[i + 1] >= 0 {
        gap := true;
      }
    }
  }

  lemma MapHasNoGap(total: nat, blocks: seq<int>)
    requires |blocks| <= total && forall k :: 0 <= k < |blocks| ==> blocks[k] >= 0
    ensures var m := MapOf(total, blocks, blocks);
            && |m| == total
            && (forall k :: 0 <= k < total ==> m[k] == if k < |blocks| then blocks[k] else -1)
            && !exists i :: 0 <= i < |m| - 1 && m[i] == -1 && m[i + 1] >= 0
  {
  }

  /** Owners while only the first `i` of the blocks of f are listed. */
  function RestOwner(owner: seq<int>, blocks: seq<int>, f: nat, i: nat): seq<int>
    requires i <= |blocks|
  {
    seq(|owner|, b requires 0 <= b < |owner| => if owner[b] == f && b !in blocks[..i] then -1 else owner[b])
  }

  lemma InPrefix(blocks: seq<int>, i: nat, b: int)
    requires i < |blocks|
    ensures b in blocks[..i + 1] <==> b in blocks[..i] || b == blocks[i]
  {
    assert blocks[..i + 1] == blocks[..i] + [blocks[i]];
  }

  lemma RestStep(owner: seq<int>, blocks: seq<int>, f: nat, i: nat)
    requires i < |blocks| && Distinct(blocks) && 0 <= blocks[i] < |owner| && owner[blocks[i]] == f
    ensures RestOwner(owner, blocks, f, i)[blocks[i]] == -1
    ensures RestOwner(owner, blocks, f, i + 1) == RestOwner(owner, blocks, f, i)[blocks[i] := f]
  {
    assert blocks[i] !in blocks[..i];
    var l, r := RestOwner(owner, blocks, f, i + 1), RestOwner(owner, blocks, f, i)[blocks[i] := f];
    forall b | 0 <= b < |owner|
      ensures l[b] == r[b]
    {
      InPrefix(blocks, i, b);
    }
  }

  /** While the list of f is rebuilt: its first `i` blocks are back, the others wait unlisted. */
  ghost predicate Rebuilding(fs: FileSystem, d: Disk, f: nat, lists: seq<seq<int>>, i: nat)
    reads fs, fs.dev, fs.dev.next, fs.dev.heads, fs.dev.flash, fs.sizes
  {
    && Mountable(fs, d) && fs.Shaped() && LinksOk(fs.dev.View()) && f < FILES
    && i <= |d.links.lists[f]| && |lists| == LISTS
    && fs.dev.lists == lists[f := d.links.lists[f][..i]]
    && fs.dev.owner == RestOwner(d.links.owner, d.links.lists[f], f, i)
  }

  /** Unlist every block of file f. */
  method ClearList(fs: FileSystem, f: nat, ghost d: Disk)
    requires Sorting(fs, d, f) && f < FILES && fs.dev.owner == d.links.owner
    modifies fs.dev, fs.dev.heads
    ensures Rebuilding(fs, d, f, old(fs.dev.lists), 0)
  {
    ghost var v := fs.dev.View();
    ClearedOk(v, f);
    fs.dev.heads[f] := -1;
    fs.dev.lists := Cleared(v, f).lists;
    fs.dev.owner := Cleared(v, f).owner;
    assert fs.dev.View() == Cleared(v, f);
    assert fs.dev.owner == RestOwner(d.links.owner, d.links.lists[f], f, 0);
  }

  method ListNext(fs: FileSystem, f: nat, b: nat, ghost d: Disk, ghost lists: seq<seq<int>>, ghost i: nat)
    requires Rebuilding(fs, d, f, lists, i) && i < |d.links.lists[f]| && b == d.links.lists[f][i]
    modifies fs.dev, fs.dev.next, fs.dev.heads
    ensures Rebuilding(fs, d, f, lists, i + 1)
  {
    RestFacts(fs, f, d, lists, i);
    assert d.links.lists[f][..i + 1] == d.links.lists[f][..i] + [d.links.lists[f][i]];
    hide LinksOk, DiskOk, RestOwner;
    Listed(fs, f, b);
  }

  lemma RestFacts(fs: FileSystem, f: nat, d: Disk, lists: seq<seq<int>>, i: nat)
    requires Rebuilding(fs, d, f, lists, i) && i < |d.links.lists[f]|
    ensures var b := d.links.lists[f][i];
            && 0 <= b < fs.dev.total && fs.dev.owner[b] == -1
            && RestOwner(d.links.owner, d.links.lists[f], f, i + 1) == fs.dev.owner[b := f]
  {
    assert ListOk(d.links, f);
    RestStep(d.links.owner, d.links.lists[f], f, i);
  }

  /** Rebuild the list of file f in block order. */
  method Rebuild(fs: FileSystem, f: nat, ghost d: Disk)
    requires Sorting(fs, d, f) && f < FILES && fs.dev.owner == d.links.owner
    modifies fs.dev, fs.dev.next, fs.dev.heads
    ensures Rebuilding(fs, d, f, old(fs.dev.lists), |d.links.lists[f]|)
  {
    ghost var lists := fs.dev.lists;
    var fileMap := MapBlocks(fs, f, d);
    assert ListOk(d.links, f);
    MapHasNoGap(fs.dev.total, d.links.lists[f]);
    var gap := HasGap(fileMap);
    assert !gap;
    ClearList(fs, f, d);
    ListMapped(fs, f, fileMap, d, lists);
  }

  method ListMapped(fs: FileSystem, f: nat, fileMap: seq<int>, ghost d: Disk, ghost lists: seq<seq<int>>)
    requires Rebuilding(fs, d, f, lists, 0)
    requires |fileMap| == fs.dev.total && |d.links.lists[f]| <= fs.dev.total
    requires forall k :: 0 <= k < |fileMap| ==> fileMap[k] == if k < |d.links.lists[f]| then d.links.lists[f][k] else -1
    modifies fs.dev, fs.dev.next, fs.dev.heads
    ensures Rebuilding(fs, d, f, lists, |d.links.lists[f]|)
  {
    assert ListOk(d.links, f);
    var i := 0;
    while i < fs.dev.total && fileMap[i] >= 0
      invariant 0 <= i <= |d.links.lists[f]|
      invariant Rebuilding(fs, d, f, lists, i)
      decreases fs.dev.total - i
    {
      ListNext(fs, f, fileMap[i], d, lists, i);
      i := i + 1;
    }
  }

  // ---- sizes ----

  /** The size of a file from the index of its last block and the length of its last page. */
  method ScanFileSize(fs: FileSystem, f: nat, ghost d: Disk) returns (size: int)
    requires Mountable(fs, d) && fs.Shaped() && LinksOk(fs.dev.View()) && f < FILES && d.raw[f].Some?
    requires fs.logs == d.logs && fs.dev.lists[f] == d.links.lists[f]
    ensures size == |d.raw[f].value|
  {
    var k, last := LastPage(fs, f, d);
    if last < 0 {
      return 0;
    }
    var lastPage := k * DATA_PAGES + last;
    MountReadable(fs, f, d);
    PageShows(fs.crc, d, f, lastPage);
    assert lastPage / DATA_PAGES == k;
    var status, rec := fs.ReadPage(f, lastPage);
    return lastPage * PAGE_SIZE + rec.len;
  }

  /** Before the sizes are known, a file whose list is rebuilt can be read like in `d`. */
  lemma MountReadable(fs: FileSystem, f: nat, d: Disk)
    requires Mountable(fs, d) && fs.Shaped() && LinksOk(fs.dev.View()) && f < FILES
    requires fs.logs == d.logs && fs.dev.lists[f] == d.links.lists[f]
    ensures Readable(fs.crc, d, f) && Readable(fs.crc, fs.State(), f)
    ensures forall page :: PageAt(fs.crc, fs.State(), f, page) == PageAt(fs.crc, d, f, page)
  {
    BodyReadable(fs.crc, d, f);
    assert ListOk(fs.dev.View(), f);
  }

  /** The last page of the last block: where the file ends. */
  method LastPage(fs: FileSystem, f: nat, ghost d: Disk) returns (k: nat, last: int)
    requires Mountable(fs, d) && fs.Shaped() && LinksOk(fs.dev.View()) && f < FILES && d.raw[f].Some?
    requires fs.logs == d.logs && fs.dev.lists[f] == d.links.lists[f]
    ensures k < |d.links.lists[f]| <= fs.dev.total && -1 <= last < DATA_PAGES
    ensures last == -1 <==> |d.raw[f].value| == 0
    ensures last >= 0 ==>
              PAGE_SIZE * (k * DATA_PAGES + last) < |d.raw[f].value| <= PAGE_SIZE * (k * DATA_PAGES + last) + PAGE_SIZE
  {
    assert ListOk(fs.dev.View(), f) && ListOk(d.links, f) && FileBody(fs.crc, d, f) && Counted(d, f);
    ListBound(d.links, f);
    var blockCount := fs.dev.ListSize(f);
    k := blockCount - 1;
    var block := fs.dev.GetBlock(f, k);
    assert BlockOk(fs.crc, d, f, k) && fs.dev.flash.img[block] == d.flash[block];
    last := LastPageIn(fs, block, d);
    LastPageOf(d.logs[block], d.raw[f].value, k, last);
  }

  method LastPageIn(fs: FileSystem, block: nat, ghost d: Disk) returns (last: int)
    requires fs.Shaped() && block < fs.dev.total && |d.logs| == fs.dev.total
    requires BodyHolds(fs.crc, fs.dev.flash.img[block], d.logs[block])
    ensures -1 <= last < DATA_PAGES
    ensures last == -1 <==> d.logs[block] == []
    ensures last >= 0 ==> Latest(d.logs[block], last).Some?
    ensures forall p :: last < p ==> Latest(d.logs[block], p).None?
  {
    IndexOfBody(fs.crc, fs.dev.flash.img[block], d.logs[block]);
    var info := fs.dev.GetIndexInfo(block);
    InfoOfBody(fs.crc, fs.dev.flash.img[block], d.logs[block], info.value);
    return info.value.logicalLastPage;
  }

  /** The last page of the last block is the last page of the file. */
  lemma LastPageOf(log: seq<Entry>, raw: seq<byte>, k: nat, last: int)
    requires BlockShows(log, raw, k) && BlockCount(|raw|) == k + 1
    requires -1 <= last < DATA_PAGES
    requires last >= 0 ==> Latest(log, last).Some?
    requires forall p :: last < p ==> Latest(log, p).None?
    ensures last == -1 <==> |raw| == 0
    ensures last >= 0 ==>
              var page := k * DATA_PAGES + last;
              PAGE_SIZE * page < |raw| <= PAGE_SIZE * page + PAGE_SIZE
  {
    if last >= 0 {
      assert Shows(Latest(log, last), raw, DATA_PAGES * k + last);
    }
    if last < DATA_PAGES - 1 {
      assert Shows(Latest(log, last + 1), raw, DATA_PAGES * k + (last + 1));
    }
  }

  /** Every page of the file reads back, and all but the last are full. */
  method FileScan(fs: FileSystem, f: nat, ghost d: Disk) returns (ok: bool)
    requires Mountable(fs, d) && fs.Shaped() && LinksOk(fs.dev.View()) && f < FILES && d.raw[f].Some?
    requires fs.logs == d.logs && fs.dev.lists[f] == d.links.lists[f] && fs.sizes[f] == |d.raw[f].value|
    ensures ok
  {
    MountReadable(fs, f, d);
    var size := fs.sizes[f];
    if size == 0 {
      PageShows(fs.crc, d, f, 0);
      var status, b, slot := fs.SeekPage(f, 0);
      return status == FfsBlock.STATUS_EOF;
    }
    var pages := size / PAGE_SIZE;
    if size % PAGE_SIZE > 0 {
      pages := pages + 1;
    }
    ok := true;
    for i := 0 to pages
      invariant ok
    {
      PageShows(fs.crc, d, f, i);
      PagePlace(size, i);
      ListBound(d.links, f);
      assert Counted(d, f);
      var status, rec := fs.ReadPage(f, i);
      if status < 0 || (i < pages - 1 && rec.len != PAGE_SIZE) {
        ok := false;
      }
    }
  }

  // ---- mounting ----

  /** Mount: whatever RAM held, the same files come back, with the same blocks in the same order. */
  method Mount(fs: FileSystem, ghost d: Disk)
    requires Mountable(fs, d)
    modifies fs, fs.dev, fs.dev.next, fs.dev.heads, fs.sizes
    ensures fs.Valid() && fs.raw == d.raw && fs.logs == d.logs
    ensures fs.dev.owner == d.links.owner && fs.sizes[..] == d.sizes
    ensures forall f :: 0 <= f < FILES ==> fs.dev.lists[f] == d.links.lists[f]
  {
    Reset(fs, d);
    ScanFreeAndDirty(fs, d);
    ScanFiles(fs, d);
    forall i | 0 <= i < FILES { fs.sizes[i] := -1; }
    fs.raw := d.raw;
    fs.logs := d.logs;
    for f := 0 to FILES
      invariant Sorting(fs, d, f) && fs.dev.owner == d.links.owner
      invariant forall g :: f <= g < FILES ==> fs.sizes[g] == -1
    {
      MountFile(fs, f, d);
    }
    assert fs.sizes[..] == d.sizes;
    Mounted(fs, d);
  }

  method MountFile(fs: FileSystem, f: nat, ghost d: Disk)
    requires Sorting(fs, d, f) && f < FILES && fs.dev.owner == d.links.owner
    requires fs.sizes[f] == -1
    modifies fs.dev, fs.dev.next, fs.dev.heads, fs.sizes
    ensures Sorting(fs, d, f + 1) && fs.dev.owner == d.links.owner
    ensures forall g :: f < g < FILES ==> fs.sizes[g] == old(fs.sizes[g])
  {
    ListedIff(fs, f, d);
    if fs.dev.heads[f] < 0 {
      return;
    }
    ghost var lists := fs.dev.lists;
    Rebuild(fs, f, d);
    RebuiltOwner(d, f);
    assert FileBody(fs.crc, d, f);
    var size := ScanFileSize(fs, f, d);
    fs.sizes[f] := size;
    var ok := FileScan(fs, f, d);
    assert ok;
  }

  /** A file has a list head after the scan exactly if it exists. */
  lemma ListedIff(fs: FileSystem, f: nat, d: Disk)
    requires Sorting(fs, d, f) && f < FILES && fs.dev.owner == d.links.owner
    ensures fs.dev.heads[f] < 0 <==> d.raw[f].None?
    ensures d.raw[f].None? ==> d.links.lists[f] == fs.dev.lists[f] == [] && d.sizes[f] == -1
  {
    assert ListOk(fs.dev.View(), f) && ListOk(d.links, f) && FileBody(fs.crc, d, f) && Counted(d, f);
    if fs.dev.lists[f] != [] {
      assert BlockOwned(d.links, fs.dev.lists[f][0]);
    }
    if d.links.lists[f] != [] {
      assert BlockOwned(fs.dev.View(), d.links.lists[f][0]);
    }
  }

  lemma RebuiltOwner(d: Disk, f: nat)
    requires LinksOk(d.links) && f < FILES
    ensures RestOwner(d.links.owner, d.links.lists[f], f, |d.links.lists[f]|) == d.links.owner
    ensures d.links.lists[f][..|d.links.lists[f]|] == d.links.lists[f]
  {
    assert d.links.lists[f][..|d.links.lists[f]|] == d.links.lists[f];
    forall b | 0 <= b < |d.links.owner| && d.links.owner[b] == f
      ensures b in d.links.lists[f]
    {
      assert BlockOwned(d.links, b);
    }
  }

  lemma Mounted(fs: FileSystem, d: Disk)
    requires Sorting(fs, d, FILES) && fs.dev.owner == d.links.owner && fs.sizes[..] == d.sizes
    ensures fs.Valid()
  {
    var e := fs.State();
    forall b | 0 <= b < fs.dev.total
      ensures ImageOk(e, b)
    {
      assert ImageOk(d, b);
    }
    forall f | 0 <= f < FILES
      ensures FileBody(fs.crc, e, f) && Counted(e, f)
    {
      assert FileBody(fs.crc, d, f) && Counted(d, f);
      FileUntouched(fs.crc, d, e, f);
    }
  }

  /** Losing all of RAM between two operations loses nothing: mounting brings back every file and every block list. */
  method PowerCycle(fs: FileSystem)
    requires fs.Valid()
    modifies fs, fs.dev, fs.dev.next, fs.dev.heads, fs.sizes
    ensures fs.Valid() && fs.raw == old(fs.raw) && fs.sizes[..] == old(fs.sizes[..])
    ensures forall f :: 0 <= f < FILES ==> fs.dev.lists[f] == old(fs.dev.lists)[f]
    ensures fs.dev.owner == old(fs.dev.owner)
    ensures fs.dev.freeBlocks == old(fs.dev.freeBlocks) && fs.dev.dirtyBlocks == old(fs.dev.dirtyBlocks)
  {
    ghost var d := fs.State();
    Mount(fs, d);
    SameOwnersSameLength(d.links, fs.dev.View(), FREE);
    SameOwnersSameLength(d.links, fs.dev.View(), DIRTY);
  }

  lemma SameOwnersSameLength(a: Links, b: Links, l: nat)
    requires LinksOk(a) && LinksOk(b) && a.owner == b.owner && l < LISTS
    ensures |a.lists[l]| == |b.lists[l]|
  {
    assert ListOk(a, l) && ListOk(b, l);
    DistinctCardinality(a.lists[l]);
    DistinctCardinality(b.lists[l]);
    forall x
      ensures x in Elements(a.lists[l]) <==> x in Elements(b.lists[l])
    {
      if x in a.lists[l] { assert BlockOwned(b, x); }
      if x in b.lists[l] { assert BlockOwned(a, x); }
    }
    assert Elements(a.lists[l]) == Elements(b.lists[l]);
  }

  /** In every consistent state the free list, the dirty list and the file lists account for each block exactly once,
      and the k-th block of file f says so in both copies of its meta header. */
  lemma BlocksAccounted(fs: FileSystem, b: nat) returns (l: nat, i: nat)
    requires fs.Valid() && b < fs.dev.total
    ensures |fs.dev.lists| == LISTS && TotalLength(fs.dev.lists) == fs.dev.total
    ensures fs.dev.freeBlocks == |fs.dev.lists[FREE]| && fs.dev.dirtyBlocks == |fs.dev.lists[DIRTY]|
    ensures l < LISTS && i < |fs.dev.lists[l]| && fs.dev.lists[l][i] == b
    ensures forall m, j :: 0 <= m < LISTS && 0 <= j < |fs.dev.lists[m]| && fs.dev.lists[m][j] == b ==> m == l && j == i
    ensures l < FILES ==>
              var img := fs.dev.flash.img[b];
              |img| == BLOCK_SIZE && fs.dev.ReadableMeta(img) && img[0] == l && img[1] == FLAGS_VALID && img[2] == i
  {
    Conservation(fs.dev.View());
    l, i := ExactlyOnce(fs.dev.View(), b);
    if l < FILES {
      ListBound(fs.dev.View(), l);
      ValidFlags(fs.crc, fs.State(), l, i);
    }
  }
}
