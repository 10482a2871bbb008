/** What the logs of a file's blocks mean: page by page, they spell one byte string. */
module FfsFile {
  import opened Bytes
  import opened FfsLayout

  const BLOCK_DATA: nat := DATA_PAGES * PAGE_SIZE

  /** The newest slot that names logical page `p`, or -1. */
  function LastSlot(log: seq<Entry>, p: nat): (r: int)
    ensures -1 <= r < |log|
    ensures r >= 0 ==> log[r].page == p
    ensures forall i :: r < i < |log| ==> log[i].page != p
  {
    if |log| == 0 then -1
    else if log[|log| - 1].page == p then |log| - 1
    else LastSlot(log[..|log| - 1], p)
  }

  function Latest(log: seq<Entry>, p: nat): Option<Rec> {
    var s := LastSlot(log, p);
    if s < 0 then None else Some(log[s].rec)
  }

  lemma LatestAppend(log: seq<Entry>, e: Entry, p: nat)
    ensures Latest(log + [e], p) == if p == e.page then Some(e.rec) else Latest(log, p)
  {
    assert (log + [e])[..|log|] == log;
  }

  /** `o` is the right answer to a read of file page `page` of a file with contents `raw`. */
  predicate Shows(o: Option<Rec>, raw: seq<byte>, page: nat) {
    if PAGE_SIZE * page < |raw| then
      o.Some? && o.value.Ok() && o.value.Bytes() == raw[PAGE_SIZE * page..Min(PAGE_SIZE * page + PAGE_SIZE, |raw|)]
    else
      o.None?
  }

  /** `log` is the log of block `k` of a file with contents `raw`. */
  predicate BlockShows(log: seq<Entry>, raw: seq<byte>, k: nat) {
    forall p :: 0 <= p < DATA_PAGES ==> Shows(Latest(log, p), raw, DATA_PAGES * k + p)
  }

  /** A file of `size` bytes owns this many blocks; an empty file owns one. */
  function BlockCount(size: nat): nat {
    if size == 0 then 1 else (size + BLOCK_DATA - 1) / BLOCK_DATA
  }

  // ---- writing one page ----

  /** A page write never leaves a hole and never cuts the file short. */
  predicate PageFits(raw: seq<byte>, page: nat, rec: Rec) {
    && rec.Ok()
    && PAGE_SIZE * page <= |raw|
    && (rec.len == PAGE_SIZE || |raw| <= PAGE_SIZE * page + rec.len)
  }

  function Splice(raw: seq<byte>, pos: nat, d: seq<byte>): (r: seq<byte>)
    requires pos <= |raw|
    ensures |r| == if pos + |d| < |raw| then |raw| else pos + |d|
  {
    raw[..pos] + d + (if pos + |d| < |raw| then raw[pos + |d|..] else [])
  }

  function PutPage(raw: seq<byte>, page: nat, rec: Rec): seq<byte>
    requires PageFits(raw, page, rec)
  {
    Splice(raw, PAGE_SIZE * page, rec.Bytes())
  }

  lemma PutPageSize(raw: seq<byte>, page: nat, rec: Rec)
    requires PageFits(raw, page, rec)
    ensures |PutPage(raw, page, rec)| ==
        if PAGE_SIZE * page + rec.len > |raw| then PAGE_SIZE * page + rec.len else |raw|
  {
  }

  lemma PutPageShows(raw: seq<byte>, page: nat, rec: Rec, q: nat, o: Option<Rec>)
    requires PageFits(raw, page, rec) && Shows(o, raw, q)
    ensures Shows(if q == page then Some(rec) else o, PutPage(raw, page, rec), q)
  {
    var r := PutPage(raw, page, rec);
    var lo := PAGE_SIZE * q;
    if q < page {
      assert r[lo..lo + PAGE_SIZE] == raw[lo..lo + PAGE_SIZE];
    } else if q == page {
      assert r[lo..lo + rec.len] == rec.Bytes();
    } else if lo < |raw| {
      var hi := Min(lo + PAGE_SIZE, |raw|);
      assert rec.len == PAGE_SIZE && |r| == |raw|;
      assert r[lo..hi] == raw[lo..hi];
    }
  }

  /** Appending a page write to the log of its block moves the block from `raw` to the file with that page put. */
  lemma {:induction false} BlockPutShows(log: seq<Entry>, raw: seq<byte>, k: nat, page: nat, rec: Rec)
    requires BlockShows(log, raw, k) && PageFits(raw, page, rec)
    ensures page / DATA_PAGES == k ==>
              BlockShows(log + [Entry(page % DATA_PAGES, rec)], PutPage(raw, page, rec), k)
    ensures page / DATA_PAGES != k ==> BlockShows(log, PutPage(raw, page, rec), k)
  {
    forall p | 0 <= p < DATA_PAGES
      ensures page / DATA_PAGES == k ==>
                Shows(Latest(log + [Entry(page % DATA_PAGES, rec)], p), PutPage(raw, page, rec), DATA_PAGES * k + p)
      ensures page / DATA_PAGES != k ==> Shows(Latest(log, p), PutPage(raw, page, rec), DATA_PAGES * k + p)
    {
      var q := DATA_PAGES * k + p;
      PutPageShows(raw, page, rec, q, Latest(log, p));
      LatestAppend(log, Entry(page % DATA_PAGES, rec), p);
      assert q / DATA_PAGES == k && q % DATA_PAGES == p;
    }
  }

  /** A fresh block past the end of the file has nothing to show yet. */
  lemma EmptyBlockShows(raw: seq<byte>, k: nat)
    requires |raw| <= BLOCK_DATA * k
    ensures BlockShows([], raw, k)
  {
  }

  /** `copy` has, in page order, the newest version of each page of `log` up to the first page `log` lacks. */
  predicate Compacted(log: seq<Entry>, copy: seq<Entry>) {
    && |copy| <= DATA_PAGES
    && (forall i :: 0 <= i < |copy| ==> copy[i].page == i && Latest(log, i) == Some(copy[i].rec))
    && (|copy| < DATA_PAGES ==> Latest(log, |copy|).None?)
  }

  /** Pages of a file of this size. */
  function PageTotal(size: nat): nat { (size + PAGE_SIZE - 1) / PAGE_SIZE }

  /** How many of `pages` pages are in block k. */
  function Present(pages: nat, k: nat): (r: nat)
    ensures r <= DATA_PAGES
  {
    if pages <= DATA_PAGES * k then 0 else Min(pages - DATA_PAGES * k, DATA_PAGES)
  }

  /** A compacted copy has exactly one entry for each page of the file in that block. */
  lemma CompactedCount(log: seq<Entry>, raw: seq<byte>, k: nat, copy: seq<Entry>)
    requires BlockShows(log, raw, k) && Compacted(log, copy)
    ensures |copy| == Present(PageTotal(|raw|), k)
  {
    var c := |copy|;
    if c > 0 {
      assert Shows(Latest(log, c - 1), raw, DATA_PAGES * k + (c - 1));
    }
    if c < DATA_PAGES {
      assert Shows(Latest(log, c), raw, DATA_PAGES * k + c);
    }
  }

  /** Because a file has no holes, stopping at the first missing page loses nothing. */
  lemma {:induction false} CompactShows(log: seq<Entry>, raw: seq<byte>, k: nat, copy: seq<Entry>)
    requires BlockShows(log, raw, k) && Compacted(log, copy)
    ensures BlockShows(copy, raw, k)
  {
    forall p | 0 <= p < DATA_PAGES
      ensures Latest(copy, p) == Latest(log, p)
    {
      var s := LastSlot(copy, p);
      if p < |copy| {
        assert copy[p].page == p;
        assert s == p;
      } else {
        assert s == -1;
        assert Shows(Latest(log, |copy|), raw, DATA_PAGES * k + |copy|);
        assert Shows(Latest(log, p), raw, DATA_PAGES * k + p);
      }
    }
    forall p | 0 <= p < DATA_PAGES
      ensures Shows(Latest(copy, p), raw, DATA_PAGES * k + p)
    {
      assert Shows(Latest(log, p), raw, DATA_PAGES * k + p);
    }
  }

  /** A page at or before the end of the file belongs to one of its blocks or to the next one. */
  lemma PagePlace(size: nat, page: nat)
    requires PAGE_SIZE * page <= size
    ensures page / DATA_PAGES <= BlockCount(size)
    ensures page / DATA_PAGES == BlockCount(size) ==> size <= BLOCK_DATA * (page / DATA_PAGES)
  {
  }

  // ---- bytes within a page ----

  /** The page a byte write builds: the old page (or 64 erased bytes), overlaid with the chunk. */
  function Overlay(o: Option<Rec>, offset: nat, chunk: seq<byte>): Rec
    requires offset + |chunk| <= PAGE_SIZE
    requires o.Some? ==> o.value.Ok()
  {
    var data := if o.Some? then o.value.data else seq(PAGE_SIZE, i => 255 as byte);
    var len := if o.Some? then o.value.len else 0;
    Rec(if len < offset + |chunk| then offset + |chunk| else len,
        data[..offset] + chunk + data[offset + |chunk|..])
  }

  lemma OverlayIsSplice(raw: seq<byte>, page: nat, o: Option<Rec>, offset: nat, chunk: seq<byte>)
    requires Shows(o, raw, page)
    requires 0 < |chunk| && offset + |chunk| <= PAGE_SIZE
    requires PAGE_SIZE * page + offset <= |raw|
    ensures PageFits(raw, page, Overlay(o, offset, chunk))
    ensures PutPage(raw, page, Overlay(o, offset, chunk)) == Splice(raw, PAGE_SIZE * page + offset, chunk)
  {
    OverlayFits(raw, page, o, offset, chunk);
    var r, w := PutPage(raw, page, Overlay(o, offset, chunk)), Splice(raw, PAGE_SIZE * page + offset, chunk);
    forall i | 0 <= i < |r|
      ensures r[i] == w[i]
    {
      OverlayAt(raw, page, o, offset, chunk, i);
    }
  }

  lemma OverlayFits(raw: seq<byte>, page: nat, o: Option<Rec>, offset: nat, chunk: seq<byte>)
    requires Shows(o, raw, page)
    requires 0 < |chunk| && offset + |chunk| <= PAGE_SIZE
    requires PAGE_SIZE * page + offset <= |raw|
    ensures PageFits(raw, page, Overlay(o, offset, chunk))
    ensures |PutPage(raw, page, Overlay(o, offset, chunk))| == |Splice(raw, PAGE_SIZE * page + offset, chunk)|
  {
  }

  lemma OverlayAt(raw: seq<byte>, page: nat, o: Option<Rec>, offset: nat, chunk: seq<byte>, i: nat)
    requires Shows(o, raw, page)
    requires 0 < |chunk| && offset + |chunk| <= PAGE_SIZE
    requires PAGE_SIZE * page + offset <= |raw|
    requires PageFits(raw, page, Overlay(o, offset, chunk)) && i < |PutPage(raw, page, Overlay(o, offset, chunk))|
    requires i < |Splice(raw, PAGE_SIZE * page + offset, chunk)|
    ensures PutPage(raw, page, Overlay(o, offset, chunk))[i] == Splice(raw, PAGE_SIZE * page + offset, chunk)[i]
  {
    var base, rec := PAGE_SIZE * page, Overlay(o, offset, chunk);
    SpliceAt(raw, base, rec.Bytes(), i);
    SpliceAt(raw, base + offset, chunk, i);
    hide Splice;
    if base <= i < base + rec.len && !(base + offset <= i < base + offset + |chunk|) {
      assert o.Some?;
      assert o.value.Bytes()[i - base] == raw[i];
    }
  }

  lemma SpliceAt(raw: seq<byte>, pos: nat, d: seq<byte>, i: nat)
    requires pos <= |raw| && i < |Splice(raw, pos, d)|
    ensures Splice(raw, pos, d)[i] == if pos <= i < pos + |d| then d[i - pos] else raw[i]
  {
  }

  lemma SpliceSplice(raw: seq<byte>, pos: nat, a: seq<byte>, b: seq<byte>)
    requires pos <= |raw|
    ensures pos + |a| <= |Splice(raw, pos, a)|
    ensures Splice(Splice(raw, pos, a), pos + |a|, b) == Splice(raw, pos, a + b)
  {
    var l := Splice(Splice(raw, pos, a), pos + |a|, b);
    var r := Splice(raw, pos, a + b);
    assert |l| == |r|;
    forall i | 0 <= i < |l|
      ensures l[i] == r[i]
    {
    }
  }

  // ---- the end-of-file test of the page allocator ----

  /** Page count the allocator compares against: one more than the full pages of a non-empty file. */
  function PageCount(size: nat): nat {
    if size > 0 then size / PAGE_SIZE + 1 else 0
  }

  /** The allocator's test admits exactly one page too many: the one a page past the first missing page. */
  lemma EofTestLooseness(size: nat, page: nat)
    ensures page <= PageCount(size) <==> PAGE_SIZE * page <= size || (size > 0 && page == size / PAGE_SIZE + 1)
    ensures size > 0 ==> size < PAGE_SIZE * (size / PAGE_SIZE + 1)
  {
  }
}
