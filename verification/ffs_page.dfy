/** The page layer: files as lists of blocks, pages found and written through slot indexes. */
module FfsPage {
  import opened Bytes
  import opened FfsLayout
  import opened FfsFlash
  import opened FfsLists
  import opened FfsFile
  import opened FfsBlock
  import opened FfsDisk

  /** The page an eight-bit block number leads to. */
  function Wrapped(page: nat): nat { page % (256 * DATA_PAGES) }

  /** Looking up this page on a device of `total` blocks trips an assertion. */
  predicate Traps(page: nat, total: nat) {
    page >= total * SLOTS || Wrapped(page) / DATA_PAGES >= total
  }

  lemma WrappedParts(page: nat)
    ensures Wrapped(page) / DATA_PAGES == page / DATA_PAGES % 256 && Wrapped(page) % DATA_PAGES == page % DATA_PAGES
    ensures forall total: nat :: page / DATA_PAGES < total < 256 ==> Wrapped(page) == page && !Traps(page, total)
  {
    var q, r, w := page / DATA_PAGES, page % DATA_PAGES, Wrapped(page);
    var low := DATA_PAGES * (q % 256) + r;
    DivModUnique(page, 256 * DATA_PAGES, q / 256, low);
    DivModUnique(low, DATA_PAGES, q % 256, r);
    hide Wrapped;
    assert w == low;
  }

  class FileSystem {
    const crc: Checksum
    const dev: BlockDriver
    const sizes: array<int>
    ghost var logs: seq<seq<Entry>>
    ghost var raw: seq<Option<seq<byte>>>

    ghost predicate Shaped()
      reads this, dev, dev.next, dev.heads, dev.flash, sizes
    {
      && dev.Wired() && 0 < dev.total < 256
      && sizes.Length == |raw| == FILES && |logs| == dev.total
      && sizes != dev.next && sizes != dev.heads
    }

    ghost function State(): Disk
      reads this, dev, dev.next, dev.heads, dev.flash, sizes
    {
      Disk(dev.View(), dev.flash.img, sizes[..], logs, raw)
    }

    ghost predicate Valid()
      reads this, dev, dev.next, dev.heads, dev.flash, sizes
    {
      Shaped() && DiskOk(crc, State())
    }

    /** Formatted and mounted: every block erased and free, no files. */
    constructor Format(n: nat, checksum: Checksum)
      requires 0 < n < 256
      ensures Valid() && dev.total == n && crc == checksum
      ensures fresh(dev) && fresh(dev.next) && fresh(dev.heads) && fresh(dev.flash) && fresh(sizes)
      ensures dev.freeBlocks == n
      ensures forall f :: 0 <= f < FILES ==> raw[f] == None
    {
      crc := checksum;
      dev := new BlockDriver(n);
      sizes := new int[FILES](_ => -1);
      logs := seq(n, i => []);
      raw := seq(FILES, f => None);
      new;
      assert forall b :: 0 <= b < n ==> ImageOk(State(), b);
      assert forall f :: 0 <= f < FILES ==> FileBody(crc, State(), f) && Counted(State(), f);
    }

    // ---- reading ----

    /** Physical place of a page: scan the index of its block backwards, newest slot first. The block number is computed
        in eight bits; asking for a block the device does not have stops the system. */
    method SeekPage(f: nat, page: nat) returns (status: int, b: nat, slot: nat)
      requires Shaped() && Readable(crc, State(), f)
      ensures status == HALTED <==> Traps(page, dev.total)
      ensures status == STATUS_EOF <==> !Traps(page, dev.total) && PageAt(crc, State(), f, Wrapped(page)).None?
      ensures status == STATUS_OK || status == STATUS_EOF || status == HALTED
      ensures status == STATUS_OK ==>
                var p := Wrapped(page);
                && p / DATA_PAGES < |dev.lists[f]| && b == dev.lists[f][p / DATA_PAGES] < dev.total
                && slot < |logs[b]| <= SLOTS && slot == LastSlot(logs[b], p % DATA_PAGES)
    {
      WrappedParts(page);
      if page >= dev.total * SLOTS {
        return HALTED, 0, 0;
      }
      var block := page / DATA_PAGES % 256;
      var pageIndex := page % DATA_PAGES;
      if block >= dev.total {
        return HALTED, 0, 0;
      }
      var physBlock := dev.GetBlock(f, block);
      if physBlock < 0 {
        return STATUS_EOF, 0, 0;
      }
      IndexOfBody(crc, dev.flash.img[physBlock], logs[physBlock]);
      var index := dev.ReadIndex(physBlock);
      var i := ScanBack(index.value, pageIndex, logs[physBlock]);
      if i < 0 {
        return STATUS_EOF, 0, 0;
      }
      return STATUS_OK, physBlock, i;
    }

    static method ScanBack(index: Index, pageIndex: nat, ghost log: seq<Entry>) returns (i: int)
      requires LogOk(log) && pageIndex < DATA_PAGES
      requires forall j :: 0 <= j < SLOTS ==> index[j] == if j < |log| then log[j].page else 255
      ensures i == LastSlot(log, pageIndex)
    {
      i := SLOTS - 1;
      while i >= 0
        invariant -1 <= i < SLOTS
        invariant forall j :: i < j < |log| ==> log[j].page != pageIndex
      {
        if index[i] == pageIndex {
          assert log[i].page == pageIndex;
          return;
        }
        i := i - 1;
      }
    }

    /** Read the newest copy of a page; its stored checksum always matches. */
    method ReadPage(f: nat, page: nat) returns (status: int, rec: Rec)
      requires Shaped() && Readable(crc, State(), f)
      ensures status == STATUS_OK || status == STATUS_EOF || status == HALTED
      ensures status == HALTED <==> Traps(page, dev.total)
      ensures status != HALTED ==>
          PageAt(crc, State(), f, Wrapped(page)) == if status == STATUS_OK then Some(rec) else None
      ensures page / DATA_PAGES < dev.total ==> status != HALTED && Wrapped(page) == page
    {
      WrappedParts(page);
      var s, b, slot := SeekPage(f, page);
      if s < 0 {
        return s, Rec(0, []);
      }
      var bytes := PageBytes(dev.flash.img[b], slot);
      assert BodyHolds(crc, State().flash[b], logs[b]);
      DecodeEncode(crc, logs[b][slot].rec);
      assert ChecksumMatches(crc, bytes);
      return STATUS_OK, DecodeRec(bytes);
    }

    // ---- growing ----

    lemma FreeImages()
      requires Shaped() && DiskBody(crc, State())
      ensures forall b :: 0 <= b < dev.total && dev.owner[b] == FREE ==> FreeImage(dev.flash.img[b])
    {
      forall b | 0 <= b < dev.total && dev.owner[b] == FREE
        ensures FreeImage(dev.flash.img[b])
      {
        assert ImageOk(State(), b);
      }
    }

    /** Give file f a fresh block at its end. */
    method AllocBlock(f: nat) returns (status: int)
      requires Shaped() && LinksOk(dev.View()) && f < FILES
      requires forall b :: 0 <= b < dev.total && dev.owner[b] == FREE ==> FreeImage(dev.flash.img[b])
      modifies this, dev, dev.next, dev.heads, dev.flash
      ensures Shaped()
      ensures old(dev.freeBlocks) == 0 ==> status == STATUS_NO_FREE_SPACE && State() == old(State())
      ensures old(dev.freeBlocks) > 0 ==>
                && status == STATUS_OK
                && dev.freeBlocks == old(dev.freeBlocks) - 1
                && 0 <= old(dev.lists[FREE][0]) < dev.total && old(|dev.lists[f]|) < 256
                && FileImage(crc, dev.flash.img[old(dev.lists[FREE][0])], f, old(|dev.lists[f]|), [])
                && State() == Grown(old(State()), f, dev.flash.img[old(dev.lists[FREE][0])])
    {
      ghost var d := State();
      assert ListOk(dev.View(), f) && ListOk(dev.View(), FREE);
      var blockCount := dev.ListSize(f);
      var block := dev.AllocBlock();
      if block < 0 {
        return STATUS_NO_FREE_SPACE;
      }
      ListRoom(d.links, f, FREE);
      hide LinksOk, FreeImage, FileImage;
      HeadBlock(f, block, blockCount);
      PopOk(d.links, FREE, -1);
      dev.Enlist(f, block);
      logs := logs[block := []];
      assert dev.flash.img == d.flash[block := dev.flash.img[block]];
      return STATUS_OK;
    }

    /** The meta header of a fresh block; the read-back check passes. */
    method HeadBlock(f: nat, block: nat, blockCount: nat)
      requires dev.Wired() && dev.total < 256 && block < dev.total && blockCount < dev.total && f < FILES
      requires FreeImage(dev.flash.img[block])
      modifies dev.flash
      ensures dev.Wired() && dev.flash.img == old(dev.flash.img)[block := dev.flash.img[block]]
      ensures FileImage(crc, dev.flash.img[block], f, blockCount, [])
    {
      FreeHoldsNothing(crc, dev.flash.img[block]);
      SealBlock(crc, dev.flash.img[block], [], f, blockCount, 0);
      var ok := dev.WriteMeta(block, MetaOf(f, FLAGS_VALID, blockCount, 0));
      assert ok;
    }

    // ---- creating and deleting ----

    /** Give the first unused file id one empty block. */
    method CreateFile() returns (file: int)
      requires Valid()
      modifies this, dev, dev.next, dev.heads, dev.flash, sizes
      ensures Valid()
      ensures file == STATUS_NO_FREE_FILES <==> forall f :: 0 <= f < FILES ==> old(raw)[f].Some?
      ensures file == STATUS_NO_FREE_SPACE <==>
          (exists f :: 0 <= f < FILES && old(raw)[f].None?) && old(dev.freeBlocks) == 0
      ensures file < 0 ==> (file == STATUS_NO_FREE_FILES || file == STATUS_NO_FREE_SPACE) && State() == old(State())
      ensures file >= 0 ==>
                && file < FILES && old(raw)[file].None? && (forall g :: 0 <= g < file ==> old(raw)[g].Some?)
                && raw == old(raw)[file := Some([])]
                && dev.freeBlocks == old(dev.freeBlocks) - 1
                && ListOk(dev.View(), file) && |dev.lists[file]| == 1 && logs[dev.lists[file][0]] == []
    {
      ghost var d := State();
      var f := 0;
      while f < FILES && sizes[f] >= 0
        invariant 0 <= f <= FILES
        invariant forall g :: 0 <= g < f ==> raw[g].Some?
      {
        assert FileBody(crc, d, f);
        f := f + 1;
      }
      if f == FILES {
        return STATUS_NO_FREE_FILES;
      }
      assert FileBody(crc, d, f) && raw[f].None?;
      FreeImages();
      var status := AllocBlock(f);
      if status < 0 {
        return status;
      }
      CreatedOk(crc, d, f, dev.flash.img[d.links.lists[FREE][0]]);
      sizes[f] := 0;
      raw := raw[f := Some([])];
      assert State() == Grown(d.(raw := raw, sizes := sizes[..]), f, dev.flash.img[d.links.lists[FREE][0]]);
      return f;
    }

    /** Retire every block of a file; its id is free again. */
    method DeleteFile(f: nat)
      requires Valid() && f < FILES
      modifies this, dev, dev.next, dev.heads, dev.flash, sizes
      ensures Valid() && raw == old(raw)[f := None]
      ensures dev.freeBlocks == old(dev.freeBlocks)
      ensures dev.dirtyBlocks == old(dev.dirtyBlocks) + old(|dev.lists[f]|)
    {
      ghost var d := State();
      BodyButFrom(crc, d, f);
      assert ListOk(d.links, f) && AllOwned(d.links);
      hide DiskOk, AllOwned, ImageOk, FileBody;
      var block := dev.GetBlock(f, 0);
      ghost var e := d;
      while block >= 0
        invariant Shaped() && dev.freeBlocks == old(dev.freeBlocks)
        invariant DiskBodyBut(crc, e, f) && AllOwned(e.links) && block == First(e.links.lists[f])
        invariant e == State().(links := dev.View().(heads := dev.heads[..][f := block]))
        invariant e.raw == d.raw && e.sizes == d.sizes
        invariant |e.links.lists[DIRTY]| + |e.links.lists[f]| == |d.links.lists[DIRTY]| + |d.links.lists[f]|
        invariant forall g :: 0 <= g < FILES && g != f ==> e.links.lists[g] == d.links.lists[g]
        decreases |e.links.lists[f]|
      {
        assert ListOk(e.links, f);
        block, e := DropBlock(f, block, e);
      }
      assert ListOk(e.links, f);
      DeletedOk(crc, d, e, f);
      dev.heads[f] := -1;
      sizes[f] := -1;
      raw := raw[f := None];
      assert dev.heads[..] == e.links.heads;
      assert sizes[..] == e.sizes[f := -1];
      assert State() == e.(raw := e.raw[f := None], sizes := e.sizes[f := -1]);
    }

    /** One round of DeleteFile. The list head of f is stale meanwhile; `e` is the state with the head it stands for. */
    method DropBlock(f: nat, block: nat, ghost e: Disk) returns (next: int, ghost e': Disk)
      requires Shaped() && DiskBodyBut(crc, e, f) && AllOwned(e.links)
      requires e.links.lists[f] != [] && block == e.links.lists[f][0] < dev.total
      requires e == State().(links := dev.View().(heads := dev.heads[..][f := block]))
      modifies this, dev, dev.next, dev.heads, dev.flash
      ensures Shaped() && dev.freeBlocks == old(dev.freeBlocks)
      ensures DiskBodyBut(crc, e', f) && AllOwned(e'.links) && next == First(e'.links.lists[f])
      ensures e' == State().(links := dev.View().(heads := dev.heads[..][f := next]))
      ensures e'.raw == e.raw && e'.sizes == e.sizes && |e'.links.lists[f]| == |e.links.lists[f]| - 1
      ensures |e'.links.lists[DIRTY]| == |e.links.lists[DIRTY]| + 1
      ensures forall g :: 0 <= g < FILES && g != f ==> e'.links.lists[g] == e.links.lists[g]
    {
      assert ListOk(e.links, f) && Chain(e.links.next, e.links.heads[f], e.links.lists[f]);
      next := dev.next[block];
      ghost var popped := Pop(e.links, f, e.links.next[block]);
      PopOk(e.links, f, e.links.next[block]);
      assert popped.next == e.links.next;
      assert ImageOk(e, block);
      dev.Detach(f);
      assert popped.heads == dev.heads[..][f := next];
      dev.SetDirty(block, popped);
      DroppedOk(crc, e, f, dev.flash.img[block]);
      e' := Dropped(e, f, dev.flash.img[block]);
      assert dev.flash.img == e'.flash;
      assert dev.heads[..][f := next] == e'.links.heads;
    }

    /** Program an erased page slot with a page and its checksum: it always reads back, and nothing else changes. */
    method WriteSlot(b: nat, slot: nat, rec: Rec) returns (ok: bool)
      requires dev.Wired() && b < dev.total && slot < SLOTS && rec.Ok()
      requires Erased(PageBytes(dev.flash.img[b], slot))
      modifies dev.flash
      ensures dev.Wired() && dev.flash.img == old(dev.flash.img)[b := WithPage(crc, old(dev.flash.img[b]), slot, rec)]
      ensures ok && PageBytes(dev.flash.img[b], slot) == EncodeRec(crc, rec)
      ensures forall r: Region :: r.Ok() && r != Page(slot) ==> r.Of(dev.flash.img[b]) == r.Of(old(dev.flash.img[b]))
    {
      var bytes := EncodeRec(crc, rec);
      assert bytes[0] == rec.len != 255;
      dev.flash.Put(b, Page(slot), bytes);
      ok := PageBytes(dev.flash.img[b], slot) == bytes;
    }

    // ---- copying and replacing blocks ----

    /** Copy the newest version of one page of file f into slot i of an erased or partly copied block. */
    method CopyPage(f: nat, page: nat, dest: nat, i: nat, ghost log: seq<Entry>) returns (status: int)
      requires Shaped() && Readable(crc, State(), f) && page / DATA_PAGES < dev.total
      requires dest < dev.total && dev.owner[dest] == -1
      requires BodyHolds(crc, dev.flash.img[dest], log) && |log| == i < DATA_PAGES
      modifies dev.flash
      ensures Shaped() && forall c :: 0 <= c < dev.total && c != dest ==> dev.flash.img[c] == old(dev.flash.img[c])
      ensures status == STATUS_OK || status == STATUS_EOF
      ensures var o := PageAt(crc, old(State()), f, page);
              if status == STATUS_EOF then o.None? && dev.flash.img[dest] == old(dev.flash.img[dest])
              else
                && o.Some? && o.value.Ok() && BodyHolds(crc, dev.flash.img[dest], log + [Entry(i, o.value)])
                && MetaBytes(dev.flash.img[dest], 0) == old(MetaBytes(dev.flash.img[dest], 0))
                && MetaBytes(dev.flash.img[dest], 1) == old(MetaBytes(dev.flash.img[dest], 1))
    {
      var rec;
      status, rec := ReadPage(f, page);
      if status == STATUS_EOF {
        return;
      }
      PageOk(crc, State(), f, page);
      AppendStored(crc, dev.flash.img[dest], log, Entry(i, rec));
      IndexStored(crc, dev.flash.img[dest], log, i);
      var ok := dev.SetIndexEntry(dest, i, i);
      assert ok;
      ok := WriteSlot(dest, i, rec);
      assert ok;
    }

    /** Copy the newest version of every page of a file block, in page order, into an erased block. */
    method BlockCopy(source: nat, dest: nat, ghost f: nat, ghost k: nat) returns (ghost log: seq<Entry>)
      requires Shaped() && Readable(crc, State(), f)
      requires k < |dev.lists[f]| && k < 256 && dev.lists[f][k] == source
          && FileImage(crc, dev.flash.img[source], f, k, logs[source])
      requires dest < dev.total && dev.owner[dest] == -1 && FreeImage(dev.flash.img[dest])
      modifies dev.flash
      ensures Shaped() && forall c :: 0 <= c < dev.total && c != dest ==> dev.flash.img[c] == old(dev.flash.img[c])
      ensures FileImage(crc, dev.flash.img[dest], f, k, log)
      ensures Compacted(logs[source], log)
      ensures Counts(dev.flash.img[source], dev.flash.img[dest])
    {
      ListBound(dev.View(), f);
      assert dev.Wired() && MetaHolds(dev.flash.img[source], MetaOf(f, FLAGS_VALID, k, dev.flash.img[source][3]));
      hide LinksOk, Readable, Compacted, BodyHolds, MetaHolds, FreeImage, FileImage, Shaped, ListOk, Flash.Valid,
        Counts, MetaOf;
      var header := ReadHeader(source, f, k);
      log := CopyPages(header[0], header[2] * DATA_PAGES, dest, k);
      WriteNextMeta(source, dest, header, log);
    }

    /** The meta of a block in use is readable: its copies agree and name a possible file block. */
    method ReadHeader(b: nat, ghost f: byte, ghost k: byte) returns (header: seq<byte>)
      requires dev.Wired() && b < dev.total && f < FILES && k < dev.total
      requires MetaHolds(dev.flash.img[b], MetaOf(f, FLAGS_VALID, k, dev.flash.img[b][3]))
      ensures header == MetaOf(f, FLAGS_VALID, k, dev.flash.img[b][3])
      ensures |dev.flash.img[b]| == BLOCK_SIZE && |header| == META_SIZE
      ensures header[0] == f && header[2] == k && header[3] == dev.flash.img[b][3]
    {
      MetaFields(dev.flash.img[b], MetaOf(f, FLAGS_VALID, k, dev.flash.img[b][3]));
      var meta := dev.ReadMeta(b);
      return meta.value;
    }

    /** Write a meta header with its sequence number incremented; the read-back check passes. */
    method WriteNextMeta(ghost source: nat, dest: nat, header: seq<byte>, ghost log: seq<Entry>)
      requires source < dev.total && source != dest
      requires Shaped() && dest < dev.total && BodyHolds(crc, dev.flash.img[dest], log)
      requires MetaHolds(dev.flash.img[dest], MetaOf(255, 255, 255, 255))
      requires |header| == META_SIZE && header[0] < FILES && header[2] < dev.total
      requires header == MetaOf(header[0], FLAGS_VALID, header[2], header[3])
      requires |dev.flash.img[source]| == BLOCK_SIZE && dev.flash.img[source][3] == header[3]
      modifies dev.flash
      ensures Shaped() && forall c :: 0 <= c < dev.total && c != dest ==> dev.flash.img[c] == old(dev.flash.img[c])
      ensures FileImage(crc, dev.flash.img[dest], header[0], header[2], log)
      ensures Counts(dev.flash.img[source], dev.flash.img[dest])
    {
      BumpedMeta(header[0], FLAGS_VALID, header[2], header[3]);
      SealBlock(crc, dev.flash.img[dest], log, header[0], header[2], NextSequence(header[3]));
      var ok := dev.WriteMeta(dest, Bumped(header));
      assert ok;
    }

    /** Pages 0..|log| of block k of file f (in state d) have been copied to `dest`; nothing else changed. */
    ghost predicate Copying(d: Disk, f: nat, k: nat, dest: nat, log: seq<Entry>)
      reads this, dev, dev.next, dev.heads, dev.flash, sizes
    {
      && Shaped() && Readable(crc, d, f) && k < |d.links.lists[f]| <= dev.total
      && State() == d.(flash := dev.flash.img)
      && dest < dev.total && dev.owner[dest] == -1
      && (forall c :: 0 <= c < dev.total && c != dest ==> dev.flash.img[c] == d.flash[c])
      && BodyHolds(crc, dev.flash.img[dest], log)
      && MetaHolds(dev.flash.img[dest], MetaOf(255, 255, 255, 255))
      && |log| <= DATA_PAGES
      && forall j :: 0 <= j < |log| ==> log[j].page == j && Latest(d.logs[d.links.lists[f][k]], j) == Some(log[j].rec)
    }

    /** The page loop of BlockCopy: stop at the first page the block does not have. */
    method CopyPages(f: nat, basePage: nat, dest: nat, ghost k: nat) returns (ghost log: seq<Entry>)
      requires Shaped() && Readable(crc, State(), f) && basePage == k * DATA_PAGES && k < |dev.lists[f]| <= dev.total
      requires dest < dev.total && dev.owner[dest] == -1 && FreeImage(dev.flash.img[dest])
      modifies dev.flash
      ensures Shaped() && forall c :: 0 <= c < dev.total && c != dest ==> dev.flash.img[c] == old(dev.flash.img[c])
      ensures BodyHolds(crc, dev.flash.img[dest], log)
      ensures MetaHolds(dev.flash.img[dest], MetaOf(255, 255, 255, 255))
      ensures Compacted(logs[dev.lists[f][k]], log)
    {
      ghost var d := State();
      FreeHoldsNothing(crc, dev.flash.img[dest]);
      log := [];
      var i := 0;
      while i < DATA_PAGES
        invariant 0 <= i <= DATA_PAGES && |log| == i
        invariant Copying(d, f, k, dest, log)
      {
        var status;
        status, log := CopyNext(f, basePage + i, dest, i, k, log, d);
        if status == STATUS_EOF {
          break;
        }
        i := i + 1;
      }
    }

    method CopyNext(f: nat, page: nat, dest: nat, i: nat, ghost k: nat, ghost log: seq<Entry>, ghost d: Disk)
      returns (status: int, ghost log': seq<Entry>)
      requires Copying(d, f, k, dest, log) && |log| == i < DATA_PAGES && page == k * DATA_PAGES + i
      modifies dev.flash
      ensures Copying(d, f, k, dest, log')
      ensures status == STATUS_EOF ==> log' == log && Latest(d.logs[d.links.lists[f][k]], i).None?
      ensures status != STATUS_EOF ==> |log'| == i + 1
    {
      ReadableFrame(crc, d, State(), f);
      assert page / DATA_PAGES == k && page % DATA_PAGES == i;
      ghost var o := PageAt(crc, State(), f, page);
      assert o == Latest(d.logs[d.links.lists[f][k]], i);
      status := CopyPage(f, page, dest, i, log);
      log' := if status == STATUS_EOF then log else log + [Entry(i, o.value)];
    }

    /** Move block k of file f to a fresh block, compacted; the old block becomes dirty. */
    method ReplaceBlock(f: nat, k: nat) returns (r: int)
      requires Shaped() && DiskBody(crc, State()) && f < FILES && raw[f].Some? && k < |dev.lists[f]| && k < 256
      modifies this, dev, dev.next, dev.heads, dev.flash
      ensures Shaped() && DiskBody(crc, State())
      ensures raw == old(raw) && sizes[..] == old(sizes[..])
      ensures AllOwned(old(dev.View())) ==> AllOwned(dev.View())
      ensures old(dev.freeBlocks) == 0 ==> r == STATUS_NO_FREE_SPACE && State() == old(State())
      ensures old(dev.freeBlocks) > 0 ==>
                && dev.freeBlocks == old(dev.freeBlocks) - 1
                && 0 <= r < dev.total && r == old(dev.lists[FREE][0])
                && Relinked(old(dev.View()), f, k, dev.View())
                && logs == old(logs)[r := logs[r]] && |logs[r]| == Present(PageTotal(|raw[f].value|), k)
                && ListOk(old(dev.View()), f) && Counts(old(dev.flash.img[dev.lists[f][k]]), dev.flash.img[r])
    {
      ghost var d := State();
      Replaceable(f, k);
      var physBlock := dev.GetBlock(f, k);
      hide DiskBody, LinksOk, ListOk, Relinked, AllOwned, BlockOk, Readable, FileImage, Compacted, FreeImage,
        BlockShows, Present, Counts;
      var newBlock := dev.AllocBlock();
      if newBlock < 0 {
        return STATUS_NO_FREE_SPACE;
      }
      PopOk(d.links, FREE, -1);
      ReadablePop(crc, d, State(), f);
      ghost var log := BlockCopy(physBlock, newBlock, f, k);
      SwapBlocks(f, k, physBlock, newBlock, log, d);
      CompactedCount(d.logs[physBlock], raw[f].value, k, log);
      return newBlock;
    }

    /** What ReplaceBlock needs to know about the block, and about the first free one. */
    lemma Replaceable(f: nat, k: nat)
      requires Shaped() && DiskBody(crc, State()) && f < FILES && raw[f].Some? && k < |dev.lists[f]|
      ensures LinksOk(dev.View()) && ListOk(dev.View(), f) && ListOk(dev.View(), FREE) && Readable(crc, State(), f)
      ensures k < |dev.lists[f]| <= dev.total && 0 <= dev.lists[f][k] < dev.total
      ensures FileImage(crc, dev.flash.img[dev.lists[f][k]], f, k, logs[dev.lists[f][k]])
      ensures BlockShows(logs[dev.lists[f][k]], raw[f].value, k)
      ensures dev.lists[FREE] != [] ==>
                var b := dev.lists[FREE][0]; 0 <= b < dev.total && dev.owner[b] == FREE && FreeImage(dev.flash.img[b])
    {
      var d := State();
      ListBound(dev.View(), f);
      BodyReadable(crc, d, f);
      assert ListOk(d.links, f) && ListOk(d.links, FREE) && FileBody(crc, d, f) && BlockOk(crc, d, f, k);
      if dev.lists[FREE] != [] {
        assert ImageOk(d, dev.lists[FREE][0]);
      }
    }

    /** The last step of ReplaceBlock: relink the list and retire the old block. */
    method SwapBlocks(f: nat, ghost k: nat, physBlock: nat, newBlock: nat, ghost log: seq<Entry>, ghost d: Disk)
      requires Shaped() && DiskBody(crc, d) && f < FILES && raw[f].Some? && k < |d.links.lists[f]| && k < 256
      requires d.links.lists[FREE] != [] && ListOk(d.links, FREE) && ListOk(d.links, f)
      requires physBlock == d.links.lists[f][k] < dev.total && newBlock == d.links.lists[FREE][0] < dev.total
      requires State() == d.(links := Pop(d.links, FREE, -1), flash := dev.flash.img)
      requires FileImage(crc, dev.flash.img[newBlock], f, k, log) && Compacted(logs[physBlock], log)
      requires forall c :: 0 <= c < dev.total && c != newBlock ==> dev.flash.img[c] == d.flash[c]
      modifies this, dev, dev.next, dev.heads, dev.flash
      ensures Shaped() && DiskBody(crc, State())
      ensures raw == old(raw) && sizes[..] == old(sizes[..])
      ensures AllOwned(d.links) ==> AllOwned(dev.View())
      ensures dev.freeBlocks == old(dev.freeBlocks)
      ensures Relinked(d.links, f, k, dev.View())
      ensures logs == old(logs)[newBlock := log]
      ensures forall c :: 0 <= c < dev.total && c != physBlock ==> dev.flash.img[c] == old(dev.flash.img[c])
    {
      ValidFlags(crc, d, f, k);
      RelinkBlocks(f, k, physBlock, newBlock, d);
      hide DiskBody, LinksOk, Relinked, Compacted, FileImage, BlockShows, DirtyImage, AllOwned;
      logs := logs[newBlock := log];
      CompactShows(d.logs[physBlock], raw[f].value, k, log);
      ReplacedOk(crc, d, State(), f, k, log);
    }

    /** The new block takes the place of the old one in the list, and the old one is queued for erasure. */
    method RelinkBlocks(f: nat, ghost k: nat, physBlock: nat, newBlock: nat, ghost d: Disk)
      requires Shaped() && DiskShape(d) && LinksOk(d.links) && f < FILES && k < |d.links.lists[f]|
      requires d.links.lists[FREE] != [] && ListOk(d.links, FREE) && ListOk(d.links, f)
      requires physBlock == d.links.lists[f][k] < dev.total && newBlock == d.links.lists[FREE][0] < dev.total
      requires dev.View() == Pop(d.links, FREE, -1)
      modifies dev, dev.next, dev.heads, dev.flash
      ensures Shaped() && Relinked(d.links, f, k, dev.View()) && DirtyImage(dev.flash.img[physBlock])
      ensures forall c :: 0 <= c < dev.total && c != physBlock ==> dev.flash.img[c] == old(dev.flash.img[c])
      ensures dev.freeBlocks == old(dev.freeBlocks)
    {
      ghost var popped := dev.View();
      PopOk(d.links, FREE, -1);
      assert d.links.owner[newBlock] == FREE && d.links.owner[physBlock] == f;
      hide LinksOk, ListOk, DirtyImage, Swap, Push;
      SwapOk(popped, f, k, newBlock);
      dev.ReplaceInList(f, physBlock, newBlock, k);
      ghost var swapped := dev.View();
      dev.SetDirty(physBlock, swapped);
      assert dev.heads[..] == Push(swapped, DIRTY, physBlock).heads;
      PushOk(swapped, DIRTY, physBlock);
      RelinkedBy(d.links, f, k, popped, swapped, dev.View());
    }

    // ---- writing ----

    /** If block k is the one after the last, add it. */
    method EnsureBlock(f: nat, k: nat) returns (status: int)
      requires Shaped() && DiskBody(crc, State()) && AllOwned(dev.View()) && f < FILES && raw[f].Some?
      requires k <= |dev.lists[f]| && (k == |dev.lists[f]| ==> |raw[f].value| <= BLOCK_DATA * k)
      modifies this, dev, dev.next, dev.heads, dev.flash
      ensures Shaped()
      ensures old(dev.freeBlocks) == 0 && k == old(|dev.lists[f]|) ==>
          status == STATUS_NO_FREE_SPACE && State() == old(State())
      ensures !(old(dev.freeBlocks) == 0 && k == old(|dev.lists[f]|)) ==>
                && status == STATUS_OK && RoomMade(crc, old(State()), State(), f)
                && |dev.lists[f]| == (if k == old(|dev.lists[f]|) then k + 1 else old(|dev.lists[f]|))
      ensures k == old(|dev.lists[f]|) && status == STATUS_OK ==>
                && ListOk(old(dev.View()), FREE) && old(dev.lists[FREE]) != []
                && dev.lists[f] == old(dev.lists[f] + [dev.lists[FREE][0]])
                && logs == old(logs[dev.lists[FREE][0] := []]) && dev.freeBlocks == old(dev.freeBlocks) - 1
      ensures k < old(|dev.lists[f]|) ==> State() == old(State()) && dev.freeBlocks == old(dev.freeBlocks)
    {
      assert ListOk(dev.View(), f) && ListOk(dev.View(), FREE);
      var blockCount := dev.ListSize(f);
      if blockCount == k {
        FreeImages();
        ghost var d := State();
        status := AllocBlock(f);
        if status == STATUS_OK {
          GrownOk(crc, d, f, dev.flash.img[d.links.lists[FREE][0]]);
        }
        return;
      }
      return STATUS_OK;
    }

    /** The first free slot of block k of file f, after replacing the block if it has none. */
    method EnsureSlot(f: nat, k: nat) returns (status: int, b: nat, slot: nat)
      requires Shaped() && DiskBody(crc, State()) && AllOwned(dev.View()) && f < FILES && raw[f].Some?
          && k < |dev.lists[f]|
      modifies this, dev, dev.next, dev.heads, dev.flash
      ensures Shaped() && RoomMade(crc, old(State()), State(), f) && |dev.lists[f]| == old(|dev.lists[f]|)
      ensures ListOk(old(dev.View()), f)
      ensures var full := |old(logs[dev.lists[f][k]])| == SLOTS;
              status == if old(dev.freeBlocks) == 0 && full then STATUS_NO_FREE_SPACE else STATUS_OK
      ensures status != STATUS_OK || |old(logs[dev.lists[f][k]])| < SLOTS ==>
                State() == old(State()) && dev.freeBlocks == old(dev.freeBlocks)
      ensures status == STATUS_OK && |old(logs[dev.lists[f][k]])| == SLOTS ==>
                && dev.freeBlocks == old(dev.freeBlocks) - 1
                && ListOk(old(dev.View()), FREE) && old(dev.lists[FREE]) != []
                && dev.lists[f] == old(dev.lists[f][k := dev.lists[FREE][0]])
                && logs == old(logs)[old(dev.lists[FREE][0]) := logs[old(dev.lists[FREE][0])]]
                && |logs[old(dev.lists[FREE][0])]| == Present(PageTotal(|raw[f].value|), k)
      ensures status == STATUS_OK ==> ListOk(dev.View(), f) && b == dev.lists[f][k] && slot == |logs[b]| < SLOTS
    {
      ghost var d := State();
      ListBound(dev.View(), f);
      assert ListOk(dev.View(), f) && ListOk(dev.View(), FREE);
      var physBlock := dev.GetBlock(f, k);
      var nextFree := NextFreeSlot(f, k, physBlock);
      if nextFree < 0 {
        physBlock := ReplaceBlock(f, k);
        if physBlock < 0 {
          return physBlock, 0, 0;
        }
        assert ListOk(dev.View(), f);
        nextFree := NextFreeSlot(f, k, physBlock);
      }
      return STATUS_OK, physBlock, nextFree;
    }

    method NextFreeSlot(ghost f: nat, ghost k: nat, b: nat) returns (slot: int)
      requires Shaped() && DiskBody(crc, State()) && f < FILES && raw[f].Some? && k < |dev.lists[f]|
      requires ListOk(dev.View(), f) && b == dev.lists[f][k] < dev.total
      ensures |logs[b]| <= SLOTS
      ensures slot == if |logs[b]| < SLOTS then |logs[b]| else -1
    {
      assert FileBody(crc, State(), f) && BlockOk(crc, State(), f, k);
      IndexOfBody(crc, dev.flash.img[b], logs[b]);
      var info := dev.GetIndexInfo(b);
      InfoOfBody(crc, dev.flash.img[b], logs[b], info.value);
      return info.value.physNextFree;
    }

    /** Find the slot a new version of `page` goes to, adding or replacing a block if that takes one. */
    method MakeRoom(f: nat, page: nat) returns (status: int, b: nat, slot: nat)
      requires Valid() && f < FILES && raw[f].Some? && PAGE_SIZE * page <= |raw[f].value|
      modifies this, dev, dev.next, dev.heads, dev.flash
      ensures Shaped()
      ensures status == if old(dev.freeBlocks) == 0
          && NeedsBlock(old(State()), f, page) then STATUS_NO_FREE_SPACE else STATUS_OK
      ensures status != STATUS_OK || !NeedsBlock(old(State()), f, page) ==> State() == old(State())
      ensures dev.freeBlocks >= old(dev.freeBlocks) - 1
      ensures status == STATUS_OK ==> Reserved(crc, old(State()), State(), f, page, b, slot)
    {
      ghost var d := State();
      assert FileBody(crc, d, f) && Counted(d, f);
      PagePlace(|raw[f].value|, page);
      var k := page / DATA_PAGES;
      ghost var need := NeedsBlock(d, f, page);
      assert ListOk(d.links, f);
      ghost var free := dev.freeBlocks;
      status := EnsureBlock(f, k);
      if status < 0 {
        assert need && free == 0;
        return status, 0, 0;
      }
      ghost var e := State();
      assert ListOk(e.links, f);
      if k < |d.links.lists[f]| {
        assert BlockOk(crc, d, f, k);
        assert e == d && need == (|e.logs[e.links.lists[f][k]]| == SLOTS);
      } else {
        assert e.logs[e.links.lists[f][k]] == [] && free > 0;
      }
      status, b, slot := EnsureSlot(f, k);
      if status == STATUS_OK {
        ReservedBy(crc, d, e, State(), f, page, b, slot);
      }
    }

    /** Reserve the slot a new version of `page` goes to: its index entry is programmed, the page itself not yet.
        `g` is the consistent state the reservation was made in: the old one, or one with a block added or replaced. */
    method AllocPage(f: nat, page: nat) returns (status: int, b: nat, slot: nat, ghost g: Disk)
      requires Valid() && f < FILES && raw[f].Some?
      requires PAGE_SIZE * page <= |raw[f].value| || page > PageCount(|raw[f].value|)
      modifies this, dev, dev.next, dev.heads, dev.flash
      ensures Shaped()
      ensures page > PageCount(old(|raw[f].value|)) ==> status == STATUS_EOF
      ensures page <= PageCount(old(|raw[f].value|)) ==>
                status == if old(dev.freeBlocks) == 0
                    && NeedsBlock(old(State()), f, page) then STATUS_NO_FREE_SPACE else STATUS_OK
      ensures status != STATUS_OK ==> State() == old(State())
      ensures status == STATUS_OK && !NeedsBlock(old(State()), f, page) ==> g == old(State())
      ensures dev.freeBlocks >= old(dev.freeBlocks) - 1
      ensures status == STATUS_OK ==>
                && Reserved(crc, old(State()), g, f, page, b, slot)
                && State() == g.(flash := g.flash[b := WithIndex(g.flash[b], page % DATA_PAGES, slot)])
    {
      g := State();
      assert FileBody(crc, g, f);
      var pageCount := 0;
      if sizes[f] > 0 {
        pageCount := sizes[f] / PAGE_SIZE + 1;
      }
      if page > pageCount {
        return STATUS_EOF, 0, 0, g;
      }
      status, b, slot := MakeRoom(f, page);
      if status == STATUS_OK {
        g := State();
        WriteIndex(f, page, b, slot);
      }
    }

    /** Program the index entry of a reserved slot; the read-back check passes. */
    method WriteIndex(ghost f: nat, page: nat, b: nat, slot: nat)
      requires Shaped() && DiskBody(crc, State()) && f < FILES && ListOk(dev.View(), f)
      requires page / DATA_PAGES < |dev.lists[f]| && b == dev.lists[f][page / DATA_PAGES]
      requires b < dev.total && slot == |logs[b]| < SLOTS
      modifies dev.flash
      ensures Shaped()
      ensures State() == old(State()).(flash := old(dev.flash.img)[b := WithIndex(old(dev.flash.img[b]),
          page % DATA_PAGES, slot)])
    {
      ghost var g := State();
      assert FileBody(crc, g, f) && BlockOk(crc, g, f, page / DATA_PAGES);
      IndexStored(crc, dev.flash.img[b], logs[b], page % DATA_PAGES);
      var ok := dev.SetIndexEntry(b, page % DATA_PAGES, slot);
      assert ok;
      assert dev.flash.img == g.flash[b := dev.flash.img[b]];
    }

    /** Write one page: the file becomes the old file with that page put, or nothing changes. */
    method WritePage(f: nat, page: nat, rec: Rec) returns (status: int, ghost g: Disk)
      requires Valid() && f < FILES && raw[f].Some? && rec.Ok()
      requires PageFits(raw[f].value, page, rec) || page > PageCount(|raw[f].value|)
      modifies this, dev, dev.next, dev.heads, dev.flash, sizes
      ensures Valid()
      ensures status == STATUS_OK || status == STATUS_ERROR
      ensures status == STATUS_ERROR <==>
              page > PageCount(old(|raw[f].value|)) || (old(dev.freeBlocks) == 0 && NeedsBlock(old(State()), f, page))
      ensures status == STATUS_ERROR ==> State() == old(State())
      ensures status == STATUS_OK ==> raw == old(raw)[f := Some(PutPage(old(raw[f].value), page, rec))]
      ensures status == STATUS_OK ==>
                DiskShape(g) && RoomCost(old(State()), g, f, page) && Logged(g, State(), f, page)
    {
      ghost var d := State();
      var tries := 3;
      while tries > 0
        invariant tries >= 0 && Valid() && State() == d
        invariant tries < 3 ==> page > PageCount(|raw[f].value|) || (dev.freeBlocks == 0 && NeedsBlock(d, f, page))
      {
        tries := tries - 1;
        var s, b, slot;
        s, b, slot, g := AllocPage(f, page);
        if s < 0 {
          continue;
        }
        CommitPage(f, page, rec, b, slot, d, g);
        return STATUS_OK, g;
      }
      return STATUS_ERROR, d;
    }

    /** Complete a page write whose slot is reserved. */
    method CommitPage(f: nat, page: nat, rec: Rec, b: nat, slot: nat, ghost d: Disk, ghost g: Disk)
      requires Shaped() && DiskOk(crc, d) && f < FILES && d.raw[f].Some? && PageFits(d.raw[f].value, page, rec)
      requires Reserved(crc, d, g, f, page, b, slot) && b < dev.total
      requires State() == g.(flash := g.flash[b := WithIndex(g.flash[b], page % DATA_PAGES, slot)])
      modifies this, dev.flash, sizes
      ensures Valid() && raw == d.raw[f := Some(PutPage(d.raw[f].value, page, rec))]
      ensures dev.View() == g.links && logs == g.logs[b := g.logs[b] + [Entry(page % DATA_PAGES, rec)]]
    {
      ReservedPlace(crc, d, g, f, page, b, slot);
      AppendFile(crc, g.flash[b], f, page / DATA_PAGES, g.logs[b], Entry(page % DATA_PAGES, rec));
      StorePage(f, page, rec, b, slot);
      StoredOk(crc, d, g, f, page, rec, b, slot);
      ghost var e := Stored(crc, g, f, page, rec, b, slot);
      assert State().flash == e.flash;
      assert State() == e;
    }

    /** Program the reserved page, check it, and extend the file size if the page reaches past the end. */
    method StorePage(f: nat, page: nat, rec: Rec, b: nat, slot: nat)
      requires Shaped() && f < FILES && raw[f].Some? && PageFits(raw[f].value, page, rec)
      requires b < dev.total && slot < SLOTS && Erased(PageBytes(dev.flash.img[b], slot))
      requires PageBytes(WithPage(crc, dev.flash.img[b], slot, rec), slot) == EncodeRec(crc, rec)
      modifies this, dev.flash, sizes
      ensures Shaped() && dev.View() == old(dev.View())
      ensures dev.flash.img == old(dev.flash.img)[b := WithPage(crc, old(dev.flash.img[b]), slot, rec)]
      ensures var length := PAGE_SIZE * page + rec.len;
              sizes[..] == old(sizes[..])[f := if length > old(sizes[f]) then length else old(sizes[f])]
      ensures logs == old(logs)[b := old(logs)[b] + [Entry(page % DATA_PAGES, rec)]]
      ensures raw == old(raw)[f := Some(PutPage(old(raw)[f].value, page, rec))]
    {
      var ok := WriteSlot(b, slot, rec);
      assert ok;
      ExtendSize(f, PAGE_SIZE * page + rec.len);
      logs := logs[b := logs[b] + [Entry(page % DATA_PAGES, rec)]];
      raw := raw[f := Some(PutPage(raw[f].value, page, rec))];
    }

    method ExtendSize(f: nat, lengthToHere: nat)
      requires f < sizes.Length
      modifies sizes
      ensures sizes[..] == old(sizes[..])[f := if lengthToHere > old(sizes[f]) then lengthToHere else old(sizes[f])]
    {
      if lengthToHere > sizes[f] {
        sizes[f] := lengthToHere;
      }
    }
  }
}
