/** The two background passes over the flash: erasing dirty blocks, and moving data off the least worn block. */
module FfsGc {
  import opened Bytes
  import opened FfsLayout
  import opened FfsLists
  import opened FfsBlock
  import opened FfsDisk
  import opened FfsPage

  const WEAR_THRESHOLD: nat := 1024

  /** Erase one dirty block, if there is one. */
  method CollectOne(fs: FileSystem)
    requires fs.Valid()
    modifies fs.dev, fs.dev.next, fs.dev.heads, fs.dev.flash
    ensures fs.Valid() && fs.raw == old(fs.raw)
    ensures old(fs.dev.dirtyBlocks) == 0 ==> fs.State() == old(fs.State())
    ensures old(fs.dev.dirtyBlocks) > 0 ==>
              fs.dev.dirtyBlocks == old(fs.dev.dirtyBlocks) - 1 && fs.dev.freeBlocks == old(fs.dev.freeBlocks) + 1
  {
    ghost var d := fs.State();
    assert ListOk(d.links, DIRTY);
    var block := fs.dev.GetDirty();
    if block < 0 {
      return;
    }
    PopOk(d.links, DIRTY, -1);
    fs.dev.Erase(block);
    ErasedOk(fs.crc, d, fs.State());
  }

  /** A whole pass: every dirty block becomes free, and no file notices. */
  method CollectAll(fs: FileSystem)
    requires fs.Valid()
    modifies fs.dev, fs.dev.next, fs.dev.heads, fs.dev.flash
    ensures fs.Valid() && fs.raw == old(fs.raw)
    ensures fs.dev.dirtyBlocks == 0
    ensures fs.dev.freeBlocks == old(fs.dev.freeBlocks) + old(fs.dev.dirtyBlocks)
  {
    while fs.dev.dirtyBlocks > 0
      invariant fs.Valid() && fs.raw == old(fs.raw)
      invariant fs.dev.freeBlocks + fs.dev.dirtyBlocks == old(fs.dev.freeBlocks) + old(fs.dev.dirtyBlocks)
      decreases fs.dev.dirtyBlocks
    {
      CollectOne(fs);
    }
  }

  /** Block b is the first with the lowest count, and `spread` is how far the highest count is above it. */
  predicate LeastWorn(counts: seq<nat>, b: nat, spread: int) {
    && b < |counts| && (forall i :: 0 <= i < |counts| ==> counts[b] <= counts[i] <= counts[b] + spread)
    && (forall i :: 0 <= i < b ==> counts[b] < counts[i])
    && exists i :: 0 <= i < |counts| && counts[i] - counts[b] == spread
  }

  lemma LeastWornUnique(counts: seq<nat>, b: nat, s: int, c: nat, t: int)
    requires LeastWorn(counts, b, s) && LeastWorn(counts, c, t)
    ensures b == c && s == t
  {
  }

  /** The first block with the lowest erase count, and the spread between the highest and the lowest count. */
  method FindLeastWorn(counts: seq<nat>) returns (block: nat, spread: int)
    requires |counts| > 0 && forall i :: 0 <= i < |counts| ==> counts[i] < 0x1_0000_0000
    ensures LeastWorn(counts, block, spread)
  {
    var highest: nat, lowest: nat := 0, 0xffffffff;
    block := 0;
    for i := 0 to |counts|
      invariant block <= i && (i == 0 ==> lowest == 0xffffffff && highest == 0)
      invariant lowest <= 0xffffffff
      invariant i > 0 ==> block < i && lowest == counts[block] && exists j :: 0 <= j < i && counts[j] == highest
      invariant forall j :: 0 <= j < i ==> lowest <= counts[j] <= highest
      invariant forall j :: 0 <= j < block ==> lowest < counts[j]
    {
      if counts[i] > highest {
        highest := counts[i];
      }
      if counts[i] < lowest {
        lowest := counts[i];
        block := i;
      }
      assert i == 0 ==> counts[0] == highest;
    }
    spread := highest - lowest;
  }

  /** If wear is uneven and the least worn block holds file data, move that data to a fresh block. */
  method LevelWear(fs: FileSystem, counts: seq<nat>)
    requires fs.Valid() && |counts| == fs.dev.total
    requires forall i :: 0 <= i < |counts| ==> counts[i] < 0x1_0000_0000
    modifies fs, fs.dev, fs.dev.next, fs.dev.heads, fs.dev.flash
    ensures fs.Valid() && fs.raw == old(fs.raw)
    ensures forall b: nat, spread: int :: LeastWorn(counts, b, spread) ==>
              if spread > 1024 && old(fs.dev.owner)[b] < FREE && old(fs.dev.freeBlocks) > 0
              then fs.dev.owner[b] == DIRTY && fs.dev.freeBlocks == old(fs.dev.freeBlocks) - 1
              else fs.State() == old(fs.State())
  {
    hide DiskOk, LeastWorn;
    var lowest, spread := FindLeastWorn(counts);
    forall b: nat, s: int | LeastWorn(counts, b, s)
      ensures b == lowest && s == spread
    {
      LeastWornUnique(counts, lowest, spread, b, s);
    }
    if spread > WEAR_THRESHOLD {
      MoveBlock(fs, lowest);
    }
  }

  /** Replace block b if it belongs to a file: afterwards b waits on the dirty list, unless no block was free. */
  method MoveBlock(fs: FileSystem, b: nat)
    requires fs.Valid() && b < fs.dev.total
    modifies fs, fs.dev, fs.dev.next, fs.dev.heads, fs.dev.flash
    ensures fs.Valid() && fs.raw == old(fs.raw)
    ensures old(fs.dev.owner[b]) < FREE && old(fs.dev.freeBlocks) > 0 ==>
              fs.dev.owner[b] == DIRTY && fs.dev.freeBlocks == old(fs.dev.freeBlocks) - 1
    ensures old(fs.dev.owner[b]) >= FREE || old(fs.dev.freeBlocks) == 0 ==> fs.State() == old(fs.State())
  {
    ghost var d := fs.State();
    WhichList(fs, b);
    var free := fs.dev.IsInList(FREE, b);
    var dirty := fs.dev.IsInList(DIRTY, b);
    if free || dirty {
      return;
    }
    ghost var f, k := WhichBlock(fs, b);
    hide DiskBody, DiskOk, LinksOk, ListOk, Relinked, MetaHolds, Counted;
    var header := fs.ReadHeader(b, f, k);
    var r := fs.ReplaceBlock(header[0], header[2]);
    if r >= 0 {
      MovedOk(fs.crc, d, fs.State(), f, k);
    }
  }

  lemma WhichList(fs: FileSystem, b: nat)
    requires fs.Valid() && b < fs.dev.total
    ensures ListOk(fs.dev.View(), FREE) && ListOk(fs.dev.View(), DIRTY)
    ensures 0 <= fs.dev.owner[b] < LISTS
    ensures b in fs.dev.lists[FREE] <==> fs.dev.owner[b] == FREE
    ensures b in fs.dev.lists[DIRTY] <==> fs.dev.owner[b] == DIRTY
  {
    var v := fs.dev.View();
    assert ListOk(v, FREE) && ListOk(v, DIRTY) && BlockOwned(v, b);
  }

  /** The file and position of a block that is neither free nor dirty. */
  lemma WhichBlock(fs: FileSystem, b: nat) returns (f: nat, k: nat)
    requires fs.Valid() && b < fs.dev.total && 0 <= fs.dev.owner[b] < FREE
    ensures f == fs.dev.owner[b] && k < |fs.dev.lists[f]| <= fs.dev.total && fs.dev.lists[f][k] == b
    ensures DiskBody(fs.crc, fs.State()) && fs.raw[f].Some? && AllOwned(fs.dev.View())
    ensures MetaHolds(fs.dev.flash.img[b], MetaOf(f, FLAGS_VALID, k, fs.dev.flash.img[b][3]))
  {
    var d := fs.State();
    assert BlockOwned(d.links, b);
    f := d.links.owner[b];
    assert ListOk(d.links, f);
    k :| 0 <= k < |d.links.lists[f]| && d.links.lists[f][k] == b;
    ListBound(d.links, f);
    ValidFlags(fs.crc, d, f, k);
  }

  /** A block that was moved is dirty, and every file has as many blocks as before. */
  lemma MovedOk(crc: Checksum, d: Disk, e: Disk, f: nat, k: nat)
    requires DiskOk(crc, d) && f < FILES && k < |d.links.lists[f]| && d.links.lists[FREE] != []
    requires DiskBody(crc, e) && AllOwned(e.links) && e.raw == d.raw && Relinked(d.links, f, k, e.links)
    ensures DiskOk(crc, e) && ListOk(d.links, f) && e.links.owner[d.links.lists[f][k]] == DIRTY
  {
    assert ListOk(d.links, f) && ListOk(d.links, FREE);
    forall g | 0 <= g < FILES
      ensures Counted(e, g)
    {
      assert Counted(d, g);
    }
    assert d.links.owner[d.links.lists[FREE][0]] == FREE && d.links.owner[d.links.lists[f][k]] == f;
  }
}
