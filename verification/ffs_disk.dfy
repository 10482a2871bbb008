/** The file system as one value: links, flash images, sizes, and what they mean; and the steps that keep it
    consistent. */
module FfsDisk {
  import opened Bytes
  import opened FfsLayout
  import opened FfsLists
  import opened FfsFile

  /** `logs[b]` is the page log stored in block b; `raw[f]` the whole contents of file f, None if it does not exist. */
  datatype Disk = Disk(links: Links, flash: seq<seq<byte>>, sizes: seq<int>,
                       logs: seq<seq<Entry>>, raw: seq<Option<seq<byte>>>)

  predicate DiskShape(d: Disk) {
    && Shape(d.links)
    && |d.flash| == |d.logs| == |d.links.next| < 256
    && |d.sizes| == |d.raw| == FILES
  }

  /** The k-th block of file f carries meta (f, k), and its log shows that part of the file. */
  predicate BlockOk(crc: Checksum, d: Disk, f: nat, k: nat)
    requires DiskShape(d) && LinksOk(d.links) && f < FILES && d.raw[f].Some? && k < |d.links.lists[f]|
  {
    assert ListOk(d.links, f);
    var b := d.links.lists[f][k];
    k < 256 && FileImage(crc, d.flash[b], f, k, d.logs[b]) && BlockShows(d.logs[b], d.raw[f].value, k)
  }

  predicate FileBody(crc: Checksum, d: Disk, f: nat)
    requires DiskShape(d) && LinksOk(d.links) && f < FILES
  {
    if d.raw[f].None? then
      d.sizes[f] == -1 && d.links.lists[f] == []
    else
      && d.sizes[f] == |d.raw[f].value|
      && forall k :: 0 <= k < |d.links.lists[f]| ==> BlockOk(crc, d, f, k)
  }

  predicate ImageOk(d: Disk, b: nat)
    requires DiskShape(d) && b < |d.flash|
  {
    && |d.flash[b]| == BLOCK_SIZE
    && (d.links.owner[b] == FREE ==> FreeImage(d.flash[b]))
    && (d.links.owner[b] == DIRTY ==> DirtyImage(d.flash[b]))
  }

  /** Everything but "every block is owned" and the number of blocks per file. */
  predicate DiskBody(crc: Checksum, d: Disk) {
    && DiskShape(d)
    && LinksOk(d.links)
    && (forall b :: 0 <= b < |d.flash| ==> ImageOk(d, b))
    && (forall f :: 0 <= f < FILES ==> FileBody(crc, d, f))
  }

  predicate Counted(d: Disk, f: nat)
    requires DiskShape(d) && f < FILES
  {
    d.raw[f].Some? ==> |d.links.lists[f]| == BlockCount(|d.raw[f].value|)
  }

  predicate DiskOk(crc: Checksum, d: Disk) {
    && DiskBody(crc, d)
    && AllOwned(d.links)
    && forall f :: 0 <= f < FILES ==> Counted(d, f)
  }

  // ---- reading ----

  /** The blocks of file f hold their logs: enough to read the file, even between two steps of an operation. */
  predicate Readable(crc: Checksum, d: Disk, f: nat) {
    && DiskShape(d) && LinksOk(d.links) && f < FILES
    && ListOk(d.links, f)
    && forall k :: 0 <= k < |d.links.lists[f]| ==>
        BodyHolds(crc, d.flash[d.links.lists[f][k]], d.logs[d.links.lists[f][k]])
  }

  /** The newest copy of a page of file f, if there is one. */
  function PageAt(crc: Checksum, d: Disk, f: nat, page: nat): Option<Rec>
    requires Readable(crc, d, f)
  {
    if page / DATA_PAGES < |d.links.lists[f]| then
      Latest(d.logs[d.links.lists[f][page / DATA_PAGES]], page % DATA_PAGES)
    else None
  }

  lemma PageOk(crc: Checksum, d: Disk, f: nat, page: nat)
    requires Readable(crc, d, f) && PageAt(crc, d, f, page).Some?
    ensures PageAt(crc, d, f, page).value.Ok()
  {
    var log := d.logs[d.links.lists[f][page / DATA_PAGES]];
    assert LogOk(log) && log[LastSlot(log, page % DATA_PAGES)].Ok();
  }

  lemma BodyReadable(crc: Checksum, d: Disk, f: nat)
    requires DiskBody(crc, d) && f < FILES
    ensures Readable(crc, d, f)
  {
    assert ListOk(d.links, f) && FileBody(crc, d, f);
    if d.raw[f].Some? {
      forall k | 0 <= k < |d.links.lists[f]|
        ensures BodyHolds(crc, d.flash[d.links.lists[f][k]], d.logs[d.links.lists[f][k]])
      {
        assert BlockOk(crc, d, f, k);
      }
    }
  }

  /** In a consistent file system every page read shows the file's contents. */
  lemma PageShows(crc: Checksum, d: Disk, f: nat, page: nat)
    requires DiskOk(crc, d) && f < FILES && d.raw[f].Some?
    ensures Readable(crc, d, f) && Shows(PageAt(crc, d, f, page), d.raw[f].value, page)
  {
    BodyReadable(crc, d, f);
    var k := page / DATA_PAGES;
    assert FileBody(crc, d, f) && Counted(d, f);
    if k < |d.links.lists[f]| {
      assert BlockOk(crc, d, f, k);
      assert page == DATA_PAGES * k + page % DATA_PAGES;
    } else {
      CountCovers(|d.raw[f].value|, page);
    }
  }

  /** Programming a block that is not the file's leaves the file readable, page by page the same. */
  lemma ReadableFrame(crc: Checksum, d: Disk, e: Disk, f: nat)
    requires Readable(crc, d, f) && DiskShape(e) && e.links == d.links && e.logs == d.logs && |e.flash| == |d.flash|
    requires forall b :: 0 <= b < |d.flash| && d.links.owner[b] == f ==> e.flash[b] == d.flash[b]
    ensures Readable(crc, e, f)
    ensures forall page :: PageAt(crc, e, f, page) == PageAt(crc, d, f, page)
  {
    forall k | 0 <= k < |e.links.lists[f]|
      ensures BodyHolds(crc, e.flash[e.links.lists[f][k]], e.logs[e.links.lists[f][k]])
    {
      assert d.links.owner[d.links.lists[f][k]] == f;
    }
  }

  /** Taking a block off the free list leaves files readable. */
  lemma ReadablePop(crc: Checksum, d: Disk, e: Disk, f: nat)
    requires Readable(crc, d, f) && d.links.lists[FREE] != []
    requires e == d.(links := Pop(d.links, FREE, -1)) && LinksOk(e.links)
    ensures Readable(crc, e, f)
  {
    assert ListOk(e.links, f);
  }

  /** The page write needs a fresh block: its block does not exist yet, or has no slot left. */
  predicate NeedsBlock(d: Disk, f: nat, page: nat)
    requires DiskShape(d) && LinksOk(d.links) && f < FILES
  {
    assert ListOk(d.links, f);
    page / DATA_PAGES >= |d.links.lists[f]| || |d.logs[d.links.lists[f][page / DATA_PAGES]]| == SLOTS
  }

  lemma CountCovers(size: nat, page: nat)
    requires BlockCount(size) <= page / DATA_PAGES
    ensures size <= PAGE_SIZE * page
  {
  }

  /** A step that leaves the blocks of file f, their images and logs alone leaves the file alone. */
  lemma FileUntouched(crc: Checksum, d: Disk, e: Disk, f: nat)
    requires DiskShape(d) && LinksOk(d.links) && DiskShape(e) && LinksOk(e.links) && f < FILES
    requires FileBody(crc, d, f)
    requires e.links.lists[f] == d.links.lists[f] && e.raw[f] == d.raw[f] && e.sizes[f] == d.sizes[f]
    requires |e.flash| == |d.flash|
    requires forall b :: 0 <= b < |d.flash| && d.links.owner[b] == f ==>
        e.flash[b] == d.flash[b] && e.logs[b] == d.logs[b]
    ensures FileBody(crc, e, f)
  {
    assert ListOk(d.links, f) && ListOk(e.links, f);
    if d.raw[f].Some? {
      forall k | 0 <= k < |e.links.lists[f]|
        ensures BlockOk(crc, e, f, k)
      {
        assert BlockOk(crc, d, f, k);
        assert d.links.owner[d.links.lists[f][k]] == f;
      }
    }
  }

  /** `e` is `d` with at most a block of file f added or replaced: same files, same contents, nothing leaked. */
  predicate RoomMade(crc: Checksum, d: Disk, e: Disk, f: nat)
    requires DiskShape(d) && LinksOk(d.links)
  {
    && DiskBody(crc, e) && AllOwned(e.links)
    && e.raw == d.raw && e.sizes == d.sizes
    && forall g :: 0 <= g < FILES && g != f ==> e.links.lists[g] == d.links.lists[g]
  }

  /** What making room for a page write costs. A slot in the block: nothing. A new block at the end of the file, or a
      compacted copy in place of a block without a free slot: the first free block. */
  predicate RoomCost(d: Disk, g: Disk, f: nat, page: nat)
    requires DiskShape(d) && LinksOk(d.links) && DiskShape(g) && f < FILES
  {
    assert ListOk(d.links, f) && ListOk(d.links, FREE);
    var list, free, k := d.links.lists[f], d.links.lists[FREE], page / DATA_PAGES;
    if !NeedsBlock(d, f, page) then g == d
    else
      && free != [] && |g.links.lists[FREE]| == |free| - 1 && |g.logs| == |d.logs|
      && g.logs == d.logs[free[0] := g.logs[free[0]]]
      && if k < |list| then g.links.lists[f] == list[k := free[0]] && d.raw[f].Some? &&
                            |g.logs[free[0]]| == Present(PageTotal(|d.raw[f].value|), k)
         else g.links.lists[f] == list + [free[0]] && g.logs[free[0]] == []
  }

  /** In `e` the block of `page` stores one entry more than in `g`, where the room for it was made. */
  predicate Logged(g: Disk, e: Disk, f: nat, page: nat)
    requires DiskShape(g) && f < FILES && DiskShape(e)
  {
    && page / DATA_PAGES < |g.links.lists[f]| && e.links == g.links
    && forall b :: 0 <= b < |g.logs| ==>
         |e.logs[b]| == |g.logs[b]| + (if b == g.links.lists[f][page / DATA_PAGES] then 1 else 0)
  }

  /** In `g`, made from `d`, slot `slot` of block b is the first free slot of the block `page` belongs to. */
  predicate Reserved(crc: Checksum, d: Disk, g: Disk, f: nat, page: nat, b: nat, slot: nat)
    requires DiskShape(d) && LinksOk(d.links) && f < FILES
  {
    var k := page / DATA_PAGES;
    && RoomMade(crc, d, g, f) && RoomCost(d, g, f, page)
    && k < |g.links.lists[f]| == (if k == |d.links.lists[f]| then k + 1 else |d.links.lists[f]|)
    && ListOk(g.links, f)
    && b == g.links.lists[f][k]
    && |g.flash[b]| == BLOCK_SIZE
    && slot == |g.logs[b]| < SLOTS
  }

  lemma ReservedBy(crc: Checksum, d: Disk, e: Disk, g: Disk, f: nat, page: nat, b: nat, slot: nat)
    requires DiskShape(d) && LinksOk(d.links) && f < FILES
    requires RoomMade(crc, d, e, f) && RoomMade(crc, e, g, f) && RoomCost(d, g, f, page)
    requires var k := page / DATA_PAGES;
             && k < |g.links.lists[f]| == |e.links.lists[f]| == (if k == |d.links.lists[f]| then k + 1
                 else |d.links.lists[f]|)
             && ListOk(g.links, f) && b == g.links.lists[f][k] && slot == |g.logs[b]| < SLOTS
    ensures Reserved(crc, d, g, f, page, b, slot)
  {
    assert ImageOk(g, b);
  }

  // ---- taking a free block for a file ----

  function Grown(d: Disk, f: nat, img: seq<byte>): Disk
    requires DiskShape(d) && LinksOk(d.links) && f < FILES && d.links.lists[FREE] != []
  {
    var b := d.links.lists[FREE][0];
    PopOk(d.links, FREE, -1);
    assert ListOk(d.links, FREE);
    d.(links := Push(Pop(d.links, FREE, -1), f, b), flash := d.flash[b := img], logs := d.logs[b := []])
  }

  lemma GrownOk(crc: Checksum, d: Disk, f: nat, img: seq<byte>)
    requires DiskBody(crc, d) && f < FILES && d.links.lists[FREE] != [] && d.raw[f].Some?
    requires |d.raw[f].value| <= BLOCK_DATA * |d.links.lists[f]| && |d.links.lists[f]| < 256
    requires FileImage(crc, img, f, |d.links.lists[f]|, [])
    ensures DiskBody(crc, Grown(d, f, img))
    ensures AllOwned(d.links) ==> AllOwned(Grown(d, f, img).links)
  {
    var e := Grown(d, f, img);
    var b := d.links.lists[FREE][0];
    PopOk(d.links, FREE, -1);
    assert ListOk(d.links, FREE) && d.links.owner[b] == FREE;
    PushOk(Pop(d.links, FREE, -1), f, b);
    forall c | 0 <= c < |e.flash|
      ensures ImageOk(e, c)
    {
      assert ImageOk(d, c);
    }
    forall g | 0 <= g < FILES
      ensures FileBody(crc, e, g)
    {
      assert FileBody(crc, d, g);
      if g != f {
        FileUntouched(crc, d, e, g);
      } else {
        assert ListOk(d.links, f);
        forall k | 0 <= k < |e.links.lists[f]|
          ensures BlockOk(crc, e, f, k)
        {
          if k < |d.links.lists[f]| {
            assert BlockOk(crc, d, f, k);
            assert d.links.owner[d.links.lists[f][k]] == f;
          } else {
            EmptyBlockShows(d.raw[f].value, k);
          }
        }
      }
    }
  }

  /** A new file starts with one empty block. */
  lemma CreatedOk(crc: Checksum, d: Disk, f: nat, img: seq<byte>)
    requires DiskOk(crc, d) && f < FILES && d.links.lists[FREE] != [] && d.raw[f].None?
    requires FileImage(crc, img, f, 0, [])
    ensures var d' := d.(raw := d.raw[f := Some([])], sizes := d.sizes[f := 0]);
            DiskOk(crc, Grown(d', f, img))
  {
    var d' := d.(raw := d.raw[f := Some([])], sizes := d.sizes[f := 0]);
    assert FileBody(crc, d, f);
    forall b | 0 <= b < |d.flash|
      ensures ImageOk(d', b)
    {
      assert ImageOk(d, b);
    }
    forall g | 0 <= g < FILES
      ensures FileBody(crc, d', g)
    {
      assert FileBody(crc, d, g);
      if g != f {
        FileUntouched(crc, d, d', g);
      }
    }
    GrownOk(crc, d', f, img);
    forall g | 0 <= g < FILES
      ensures Counted(Grown(d', f, img), g)
    {
      assert Counted(d, g);
    }
  }

  // ---- appending one page write to a block of a file ----

  function Put(d: Disk, f: nat, page: nat, rec: Rec, img: seq<byte>): Disk
    requires DiskShape(d) && LinksOk(d.links) && f < FILES && d.raw[f].Some? && PageFits(d.raw[f].value, page, rec)
    requires page / DATA_PAGES < |d.links.lists[f]|
  {
    assert ListOk(d.links, f);
    var b := d.links.lists[f][page / DATA_PAGES];
    var raw := PutPage(d.raw[f].value, page, rec);
    d.(flash := d.flash[b := img], logs := d.logs[b := d.logs[b] + [Entry(page % DATA_PAGES, rec)]],
       raw := d.raw[f := Some(raw)], sizes := d.sizes[f := |raw|])
  }

  lemma PutOk(crc: Checksum, d: Disk, f: nat, page: nat, rec: Rec, img: seq<byte>)
    requires DiskBody(crc, d) && f < FILES && d.raw[f].Some? && PageFits(d.raw[f].value, page, rec)
    requires page / DATA_PAGES < |d.links.lists[f]|
    requires ListOk(d.links, f) && page / DATA_PAGES < 256
    requires var b := d.links.lists[f][page / DATA_PAGES];
             FileImage(crc, img, f, page / DATA_PAGES, d.logs[b] + [Entry(page % DATA_PAGES, rec)])
    ensures DiskBody(crc, Put(d, f, page, rec, img))
  {
    var e := Put(d, f, page, rec, img);
    var k0 := page / DATA_PAGES;
    var b := d.links.lists[f][k0];
    forall c | 0 <= c < |e.flash|
      ensures ImageOk(e, c)
    {
      assert ImageOk(d, c);
    }
    forall g | 0 <= g < FILES
      ensures FileBody(crc, e, g)
    {
      assert FileBody(crc, d, g);
      if g != f {
        FileUntouched(crc, d, e, g);
      } else {
        forall k | 0 <= k < |e.links.lists[f]|
          ensures BlockOk(crc, e, f, k)
        {
          assert BlockOk(crc, d, f, k);
          var c := d.links.lists[f][k];
          assert k != k0 ==> c != b;
          BlockPutShows(d.logs[c], d.raw[f].value, k, page, rec);
        }
      }
    }
  }

  /** How many blocks the file needs after a page write: the old number, or one more when the page opened a new
      block. */
  lemma PutCount(raw: seq<byte>, page: nat, rec: Rec)
    requires PageFits(raw, page, rec)
    ensures page / DATA_PAGES <= BlockCount(|raw|)
    ensures BlockCount(|PutPage(raw, page, rec)|) ==
            if page / DATA_PAGES == BlockCount(|raw|) then BlockCount(|raw|) + 1 else BlockCount(|raw|)
    ensures page / DATA_PAGES == BlockCount(|raw|) ==> |raw| == BLOCK_DATA * BlockCount(|raw|)
  {
  }

  /** The image of block b after both steps of a page write in slot `slot`. */
  function Stored(crc: Checksum, g: Disk, f: nat, page: nat, rec: Rec, b: nat, slot: nat): Disk
    requires DiskShape(g) && LinksOk(g.links) && f < FILES && g.raw[f].Some? && PageFits(g.raw[f].value, page, rec)
    requires page / DATA_PAGES < |g.links.lists[f]| && b < |g.flash| && |g.flash[b]| == BLOCK_SIZE && slot < SLOTS
  {
    Put(g, f, page, rec, WithPage(crc, WithIndex(g.flash[b], page % DATA_PAGES, slot), slot, rec))
  }

  lemma ReservedPlace(crc: Checksum, d: Disk, g: Disk, f: nat, page: nat, b: nat, slot: nat)
    requires DiskOk(crc, d) && f < FILES && d.raw[f].Some? && Reserved(crc, d, g, f, page, b, slot)
    ensures page / DATA_PAGES < 256 && b < |g.flash| == |g.logs| && g.raw[f].Some? && |g.flash[b]| == BLOCK_SIZE
    ensures FileImage(crc, g.flash[b], f, page / DATA_PAGES, g.logs[b])
  {
    assert FileBody(crc, g, f) && BlockOk(crc, g, f, page / DATA_PAGES);
  }

  /** Storing a page in its reserved slot completes the write: a consistent file system again. */
  lemma StoredOk(crc: Checksum, d: Disk, g: Disk, f: nat, page: nat, rec: Rec, b: nat, slot: nat)
    requires DiskOk(crc, d) && f < FILES && d.raw[f].Some? && PageFits(d.raw[f].value, page, rec)
    requires Reserved(crc, d, g, f, page, b, slot)
    requires b < |g.flash| && |g.flash[b]| == BLOCK_SIZE
    ensures DiskOk(crc, Stored(crc, g, f, page, rec, b, slot))
    ensures var length := PAGE_SIZE * page + rec.len;
            Stored(crc, g, f, page, rec, b, slot).sizes == g.sizes[f :=
                if length > g.sizes[f] then length else g.sizes[f]]
  {
    var k := page / DATA_PAGES;
    assert FileBody(crc, g, f);
    PutPageSize(d.raw[f].value, page, rec);
    ReservedPlace(crc, d, g, f, page, b, slot);
    AppendFile(crc, g.flash[b], f, k, g.logs[b], Entry(page % DATA_PAGES, rec));
    var e := Stored(crc, g, f, page, rec, b, slot);
    PutOk(crc, g, f, page, rec, e.flash[b]);
    PutCount(d.raw[f].value, page, rec);
    forall h | 0 <= h < FILES
      ensures Counted(e, h)
    {
      assert Counted(d, h);
    }
  }

  // ---- replacing a block by a compacted copy ----

  /** `links` after block c = lists[f][k] gave its place to the first free block and went to the dirty list. */
  predicate Relinked(links: Links, f: nat, k: nat, r: Links)
    requires LinksOk(links) && f < FILES && k < |links.lists[f]| && links.lists[FREE] != []
  {
    assert ListOk(links, FREE) && ListOk(links, f);
    var b, c := links.lists[FREE][0], links.lists[f][k];
    && LinksOk(r) && |r.next| == |links.next|
    && r.owner == links.owner[c := DIRTY][b := f]
    && r.lists[f] == links.lists[f][k := b]
    && forall g :: 0 <= g < FILES && g != f ==> r.lists[g] == links.lists[g]
  }

  lemma RelinkedBy(links: Links, f: nat, k: nat, popped: Links, swapped: Links, r: Links)
    requires LinksOk(links) && f < FILES && k < |links.lists[f]| && links.lists[FREE] != []
    requires ListOk(links, FREE) && ListOk(links, f)
    requires popped == Pop(links, FREE, -1) && LinksOk(popped)
    requires swapped == Swap(popped, f, k, links.lists[FREE][0]) && LinksOk(swapped)
    requires r == Push(swapped, DIRTY, links.lists[f][k]) && LinksOk(r)
    ensures Relinked(links, f, k, r)
  {
    var b, c := links.lists[FREE][0], links.lists[f][k];
    assert links.owner[b] == FREE && links.owner[c] == f;
    assert swapped.owner == links.owner[b := -1][c := -1][b := f];
    assert r.owner == links.owner[c := DIRTY][b := f];
  }

  lemma ReplacedOk(crc: Checksum, d: Disk, e: Disk, f: nat, k: nat, log: seq<Entry>)
    requires DiskBody(crc, d) && f < FILES && k < |d.links.lists[f]| && d.links.lists[FREE] != []
    requires d.raw[f].Some? && k < 256 && |e.flash| == |d.flash|
    requires ListOk(d.links, FREE) && ListOk(d.links, f)
    requires var b, c := d.links.lists[FREE][0], d.links.lists[f][k];
             && Relinked(d.links, f, k, e.links)
             && e == d.(links := e.links, flash := e.flash, logs := d.logs[b := log])
             && FileImage(crc, e.flash[b], f, k, log) && BlockShows(log, d.raw[f].value, k)
             && DirtyImage(e.flash[c])
             && forall x :: 0 <= x < |d.flash| && x != b && x != c ==> e.flash[x] == d.flash[x]
    ensures DiskBody(crc, e)
    ensures AllOwned(d.links) ==> AllOwned(e.links)
  {
    var b := d.links.lists[FREE][0];
    var c := d.links.lists[f][k];
    assert d.links.owner[b] == FREE && d.links.owner[c] == f;
    forall x | 0 <= x < |e.flash|
      ensures ImageOk(e, x)
    {
      assert ImageOk(d, x);
    }
    forall g | 0 <= g < FILES
      ensures FileBody(crc, e, g)
    {
      assert FileBody(crc, d, g);
      if g != f {
        FileUntouched(crc, d, e, g);
      } else {
        forall j | 0 <= j < |e.links.lists[f]|
          ensures BlockOk(crc, e, f, j)
        {
          assert BlockOk(crc, d, f, j);
          assert d.links.owner[d.links.lists[f][j]] == f;
          assert j != k ==> d.links.lists[f][j] != c;
        }
      }
    }
  }

  // ---- deleting ----

  /** Move the first block of file f to the dirty list. */
  function Dropped(d: Disk, f: nat, img: seq<byte>): Disk
    requires DiskShape(d) && LinksOk(d.links) && f < FILES && d.links.lists[f] != []
  {
    var b := d.links.lists[f][0];
    assert ListOk(d.links, f);
    PopOk(d.links, f, d.links.next[b]);
    d.(links := Push(Pop(d.links, f, d.links.next[b]), DIRTY, b), flash := d.flash[b := img])
  }

  /** Every file but f is intact; the blocks f still has are its own, valid ones. */
  predicate DiskBodyBut(crc: Checksum, d: Disk, f: nat) {
    && DiskShape(d)
    && LinksOk(d.links)
    && f < FILES
    && (forall b :: 0 <= b < |d.flash| ==> ImageOk(d, b))
    && (forall b :: 0 <= b < |d.flash| && d.links.owner[b] == f ==>
          |d.flash[b]| == BLOCK_SIZE && d.flash[b][1] == FLAGS_VALID && d.flash[b][HEADER_SIZE + 1] == FLAGS_VALID)
    && (forall g :: 0 <= g < FILES && g != f ==> FileBody(crc, d, g))
  }

  lemma ValidFlags(crc: Checksum, d: Disk, f: nat, k: nat)
    requires DiskBody(crc, d) && f < FILES && k < |d.links.lists[f]| && ListOk(d.links, f)
    ensures d.raw[f].Some? && BlockOk(crc, d, f, k)
    ensures var img := d.flash[d.links.lists[f][k]];
            |img| == BLOCK_SIZE && img[0] == f && img[1] == FLAGS_VALID && img[2] == k
                && img[HEADER_SIZE + 1] == FLAGS_VALID
  {
    assert FileBody(crc, d, f) && BlockOk(crc, d, f, k);
    var img := d.flash[d.links.lists[f][k]];
    MetaFields(img, MetaOf(f, FLAGS_VALID, k, img[3]));
  }

  lemma BodyButFrom(crc: Checksum, d: Disk, f: nat)
    requires DiskBody(crc, d) && f < FILES
    ensures DiskBodyBut(crc, d, f)
  {
    forall b | 0 <= b < |d.flash| && d.links.owner[b] == f
      ensures ImageOk(d, b) && d.flash[b][1] == FLAGS_VALID && d.flash[b][HEADER_SIZE + 1] == FLAGS_VALID
    {
      assert BlockOwned(d.links, b) && ListOk(d.links, f);
      var k :| 0 <= k < |d.links.lists[f]| && d.links.lists[f][k] == b;
      ValidFlags(crc, d, f, k);
    }
  }

  lemma DroppedOk(crc: Checksum, d: Disk, f: nat, img: seq<byte>)
    requires DiskBodyBut(crc, d, f) && d.links.lists[f] != [] && DirtyImage(img)
    ensures DiskBodyBut(crc, Dropped(d, f, img), f)
    ensures AllOwned(d.links) ==> AllOwned(Dropped(d, f, img).links)
  {
    var e := Dropped(d, f, img);
    var b := d.links.lists[f][0];
    assert ListOk(d.links, f) && d.links.owner[b] == f;
    PopOk(d.links, f, d.links.next[b]);
    PushOk(Pop(d.links, f, d.links.next[b]), DIRTY, b);
    forall x | 0 <= x < |e.flash|
      ensures ImageOk(e, x)
    {
      assert ImageOk(d, x);
    }
    forall g | 0 <= g < FILES && g != f
      ensures FileBody(crc, e, g)
    {
      assert FileBody(crc, d, g);
      FileUntouched(crc, d, e, g);
    }
  }

  /** Once its last block is gone, forgetting the file leaves a consistent file system. */
  lemma DeletedOk(crc: Checksum, d: Disk, e: Disk, f: nat)
    requires DiskOk(crc, d) && DiskBodyBut(crc, e, f) && AllOwned(e.links)
    requires e.links.lists[f] == [] && e.raw == d.raw && e.sizes == d.sizes
    requires forall g :: 0 <= g < FILES && g != f ==> e.links.lists[g] == d.links.lists[g]
    ensures DiskOk(crc, e.(raw := e.raw[f := None], sizes := e.sizes[f := -1]))
  {
    var r := e.(raw := e.raw[f := None], sizes := e.sizes[f := -1]);
    forall b | 0 <= b < |r.flash|
      ensures ImageOk(r, b)
    {
      assert ImageOk(e, b);
    }
    forall g | 0 <= g < FILES
      ensures FileBody(crc, r, g) && Counted(r, g)
    {
      if g != f {
        assert FileBody(crc, e, g) && Counted(d, g);
        FileUntouched(crc, e, r, g);
      }
    }
  }

  // ---- garbage collection ----

  lemma ErasedOk(crc: Checksum, d: Disk, e: Disk)
    requires DiskOk(crc, d) && d.links.lists[DIRTY] != []
    requires ListOk(d.links, DIRTY)
    requires var b := d.links.lists[DIRTY][0];
             && LinksOk(Pop(d.links, DIRTY, -1))
             && e == d.(links := Push(Pop(d.links, DIRTY, -1), FREE, b), flash := e.flash)
             && |e.flash| == |d.flash| && FreeImage(e.flash[b])
             && forall c :: 0 <= c < |d.flash| && c != b ==> e.flash[c] == d.flash[c]
    ensures DiskOk(crc, e)
  {
    var b := d.links.lists[DIRTY][0];
    PopOk(d.links, DIRTY, -1);
    PushOk(Pop(d.links, DIRTY, -1), FREE, b);
    assert d.links.owner[b] == DIRTY;
    forall x | 0 <= x < |e.flash|
      ensures ImageOk(e, x)
    {
      assert ImageOk(d, x);
    }
    forall g | 0 <= g < FILES
      ensures FileBody(crc, e, g) && Counted(e, g)
    {
      assert FileBody(crc, d, g) && Counted(d, g);
      FileUntouched(crc, d, e, g);
    }
  }
}
