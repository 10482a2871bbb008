/** How many free blocks a write takes, worked out beforehand from the slots its file has used. */
module FfsCost {
  import opened Bytes
  import opened FfsLayout
  import opened FfsLists
  import opened FfsFile
  import opened FfsDisk

  /** Used slots of each block of a file, and how many pages the file has. */
  datatype Plan = Plan(lens: seq<nat>, pages: nat)

  /** Writing this page takes a free block: its block does not exist yet, or has no slot left. */
  function PageCost(s: Plan, page: nat): (r: nat)
    ensures r <= 1
  {
    if page / DATA_PAGES >= |s.lens| || s.lens[page / DATA_PAGES] == SLOTS then 1 else 0
  }

  /** A new block starts with this page; a full one is replaced by a copy of its pages first. */
  function OnePage(s: Plan, page: nat): (r: Plan)
    ensures |s.lens| <= |r.lens|
  {
    var k := page / DATA_PAGES;
    Plan(if k >= |s.lens| then s.lens + [1]
         else if s.lens[k] == SLOTS then s.lens[k := Present(s.pages, k) + 1]
         else s.lens[k := s.lens[k] + 1],
         if page < s.pages then s.pages else page + 1)
  }

  /** After pages from..end have been written in order. */
  function Written(s: Plan, from: nat, end: nat): (r: Plan)
    ensures |s.lens| <= |r.lens|
  {
    if end <= from then s else OnePage(Written(s, from, end - 1), end - 1)
  }

  /** The free blocks that takes. */
  function Cost(s: Plan, from: nat, end: nat): (r: nat)
    ensures r <= if end <= from then 0 else end - from
  {
    if end <= from then 0 else Cost(s, from, end - 1) + PageCost(Written(s, from, end - 1), end - 1)
  }

  /** No page costs nothing; one page more is paid after those before it. */
  lemma CostStep(s: Plan, from: nat, end: nat)
    requires from <= end
    ensures from == end ==> Written(s, from, end) == s && Cost(s, from, end) == 0
    ensures Written(s, from, end + 1) == OnePage(Written(s, from, end), end)
    ensures Cost(s, from, end + 1) == Cost(s, from, end) + PageCost(Written(s, from, end), end)
  {
  }

  lemma {:induction false} CostGrows(s: Plan, from: nat, a: nat, b: nat)
    requires a <= b
    ensures Cost(s, from, a) <= Cost(s, from, b)
    decreases b
  {
    if a < b {
      CostGrows(s, from, a, b - 1);
    }
  }

  /** Two writes in a row. */
  lemma {:induction false} CostSplit(s: Plan, from: nat, mid: nat, end: nat)
    requires from <= mid <= end
    ensures Written(s, from, end) == Written(Written(s, from, mid), mid, end)
    ensures Cost(s, from, end) == Cost(s, from, mid) + Cost(Written(s, from, mid), mid, end)
    decreases end
  {
    hide OnePage, PageCost;
    if mid < end {
      CostSplit(s, from, mid, end - 1);
    }
  }

  /** Within one block that has the slots, nothing. */
  lemma {:induction false} CostInBlock(s: Plan, k: nat, from: nat, end: nat)
    requires k < |s.lens| && DATA_PAGES * k <= from <= end <= DATA_PAGES * (k + 1)
    requires s.lens[k] + (end - from) <= SLOTS
    ensures Cost(s, from, end) == 0
    ensures Written(s, from, end)
            == Plan(s.lens[k := s.lens[k] + (end - from)], if end <= s.pages || from == end then s.pages else end)
    decreases end
  {
    hide Cost, Written;
    if from < end {
      CostInBlock(s, k, from, end - 1);
      CostStep(s, from, end - 1);
      DivModUnique(end - 1, DATA_PAGES, k, end - 1 - DATA_PAGES * k);
    } else {
      CostStep(s, from, end);
      assert s.lens[k := s.lens[k]] == s.lens;
    }
  }

  /** The new copies it takes to write n slots of a block that starts with `used` of them used, if each copy starts
      with c. */
  function Copies(used: nat, n: nat, c: nat): nat
    requires c <= DATA_PAGES
  {
    if used + n <= SLOTS then 0 else (used + n - c - 1) / (SLOTS - c)
  }

  /** Used slots of the last copy. */
  function LastCopy(used: nat, n: nat, c: nat): int
    requires c <= DATA_PAGES
  {
    used + n - (SLOTS - c) * Copies(used, n, c)
  }

  lemma NoCopy(used: nat, c: nat)
    requires used <= SLOTS && c <= DATA_PAGES
    ensures Copies(used, 0, c) == 0 && LastCopy(used, 0, c) == used
  {
  }

  lemma CopiesStep(used: nat, n: nat, c: nat)
    requires used <= SLOTS && n > 0 && c <= DATA_PAGES
    ensures 0 <= LastCopy(used, n - 1, c) <= SLOTS && LastCopy(used, n, c) >= 0
    ensures LastCopy(used, n, c) == if LastCopy(used, n - 1, c) == SLOTS then c + 1 else LastCopy(used, n - 1, c) + 1
    ensures Copies(used, n, c) == Copies(used, n - 1, c) + if LastCopy(used, n - 1, c) == SLOTS then 1 else 0
  {
    var w := SLOTS - c;
    if used + n - 1 > SLOTS {
      var m := used + n - c - 2;
      var q, r := m / w, m % w;
      DivModUnique(m, w, q, r);
      if r == w - 1 {
        assert w * (q + 1) == w * q + w;
        DivModUnique(m + 1, w, q + 1, 0);
      } else {
        DivModUnique(m + 1, w, q, r + 1);
      }
    } else if used + n - 1 == SLOTS {
      DivModUnique(w, w, 1, 0);
    }
  }

  /** Overwriting pages of a block: each new copy starts with one slot for every page of the file in that block. */
  lemma {:induction false} CostOverwrite(s: Plan, k: nat, from: nat, end: nat)
    requires k < |s.lens| && DATA_PAGES * k <= from <= end <= DATA_PAGES * (k + 1)
    requires s.lens[k] <= SLOTS && end <= s.pages
    ensures var c, n, used := Present(s.pages, k), end - from, s.lens[k];
            && Cost(s, from, end) == Copies(used, n, c)
            && LastCopy(used, n, c) >= 0 && Written(s, from, end) == Plan(s.lens[k := LastCopy(used, n, c)], s.pages)
    decreases end
  {
    hide Present, Cost, Written, Copies, LastCopy;
    if from == end {
      CostStep(s, from, end);
      NoCopy(s.lens[k], Present(s.pages, k));
      assert s.lens[k := s.lens[k]] == s.lens;
    } else {
      CostOverwrite(s, k, from, end - 1);
      CostStep(s, from, end - 1);
      CopiesStep(s.lens[k], end - from, Present(s.pages, k));
      DivModUnique(end - 1, DATA_PAGES, k, end - 1 - DATA_PAGES * k);
    }
  }

  /** Overwriting all 51 pages of a block without a free slot takes seven free blocks, not one. */
  lemma SevenForOne(s: Plan, k: nat)
    requires k < |s.lens| && s.lens[k] == SLOTS && DATA_PAGES * (k + 1) <= s.pages
    ensures Cost(s, DATA_PAGES * k, DATA_PAGES * (k + 1)) == 7
  {
    CostOverwrite(s, k, DATA_PAGES * k, DATA_PAGES * (k + 1));
  }

  lemma FirstOfBlock(s: Plan)
    ensures var from := DATA_PAGES * |s.lens|;
            && OnePage(s, from) == Plan(s.lens + [1], if from < s.pages then s.pages else from + 1)
            && PageCost(s, from) == 1
  {
    DivModUnique(DATA_PAGES * |s.lens|, DATA_PAGES, |s.lens|, 0);
  }

  /** A block at the end of the file costs one. */
  lemma CostOfNewBlock(s: Plan, end: nat)
    requires DATA_PAGES * |s.lens| < end <= DATA_PAGES * (|s.lens| + 1)
    ensures var from := DATA_PAGES * |s.lens|;
            && Cost(s, from, end) == 1
            && Written(s, from, end) == Plan(s.lens + [end - from], if end <= s.pages then s.pages else end)
  {
    hide Cost, Written, OnePage, PageCost;
    var from, k := DATA_PAGES * |s.lens|, |s.lens|;
    CostStep(s, from, from);
    FirstOfBlock(s);
    CostSplit(s, from, from + 1, end);
    CostInBlock(OnePage(s, from), k, from + 1, end);
    assert (s.lens + [1])[k := 1 + (end - from - 1)] == s.lens + [end - from];
  }

  // ---- what it says about the file system ----

  /** The plan of file f as it is. */
  function Measure(d: Disk, f: nat): (r: Plan)
    requires DiskShape(d) && LinksOk(d.links) && f < FILES && d.raw[f].Some?
    ensures |r.lens| == |d.links.lists[f]|
  {
    assert ListOk(d.links, f);
    Plan(seq(|d.links.lists[f]|, k requires 0 <= k < |d.links.lists[f]| => |d.logs[d.links.lists[f][k]]|),
         PageTotal(|d.raw[f].value|))
  }

  /** A file is no larger than the device. */
  lemma SizeBound(crc: Checksum, d: Disk, f: nat)
    requires DiskOk(crc, d) && f < FILES && d.raw[f].Some?
    ensures |d.links.lists[f]| == BlockCount(|d.raw[f].value|) <= |d.flash|
    ensures |d.raw[f].value| <= BLOCK_DATA * |d.flash|
  {
    assert FileBody(crc, d, f) && Counted(d, f);
    ListBound(d.links, f);
  }

  /** The free list and the list of one file hold no more blocks than there are. */
  lemma TwoLists(k: Links, f: nat)
    requires LinksOk(k) && f < FILES
    ensures |k.lists[FREE]| + |k.lists[f]| <= |k.next|
  {
    ElementsAre(k, FREE);
    ElementsAre(k, f);
    hide LinksOk, Elements;
    var free, own := Elements(k.lists[FREE]), Elements(k.lists[f]);
    forall b | b in free
      ensures b !in own
    {
      assert k.owner[b] == FREE;
    }
    Cardinality(free + own, Below(|k.next|));
  }

  /** A file that fills the device owns every block of it, and would need one more. */
  lemma AtTheEnd(crc: Checksum, d: Disk, f: nat)
    requires DiskOk(crc, d) && f < FILES && d.raw[f].Some? && |d.raw[f].value| == BLOCK_DATA * |d.flash| > 0
    ensures d.links.lists[FREE] == [] && PageCost(Measure(d, f), DATA_PAGES * |d.flash|) == 1
  {
    SizeBound(crc, d, f);
    TwoLists(d.links, f);
    assert BlockCount(|d.raw[f].value|) == |d.flash|;
  }

  lemma CostIsNeed(d: Disk, f: nat, page: nat)
    requires DiskShape(d) && LinksOk(d.links) && f < FILES && d.raw[f].Some?
    ensures PageCost(Measure(d, f), page) == if NeedsBlock(d, f, page) then 1 else 0
  {
    assert ListOk(d.links, f);
  }

  /** A page write adds a page if it is the first missing one. */
  lemma PagesGrow(raw: seq<byte>, page: nat, rec: Rec)
    requires PageFits(raw, page, rec)
    ensures PageTotal(|PutPage(raw, page, rec)|) == if page < PageTotal(|raw|) then PageTotal(|raw|) else page + 1
  {
    PutPageSize(raw, page, rec);
  }

  /** Blocks on the list of a file are distinct, and none of them is free. */
  lemma Apart(k: Links, f: nat)
    requires LinksOk(k) && f < FILES
    ensures ListOk(k, f) && ListOk(k, FREE)
    ensures forall i, j :: 0 <= i < |k.lists[f]| && 0 <= j < |k.lists[f]| && k.lists[f][i] == k.lists[f][j] ==> i == j
    ensures k.lists[FREE] != [] ==> k.lists[FREE][0] !in k.lists[f]
  {
    assert ListOk(k, f) && ListOk(k, FREE);
    if k.lists[FREE] != [] {
      NotOnList(k, f, k.lists[FREE][0]);
    }
  }

  /** Used slots block by block after a page write. */
  lemma LensStep(d: Disk, g: Disk, e: Disk, f: nat, page: nat, j: nat)
    requires DiskShape(d) && LinksOk(d.links) && f < FILES && d.raw[f].Some? && DiskShape(g) && DiskShape(e)
    requires RoomCost(d, g, f, page) && LinksOk(e.links) && Logged(g, e, f, page) && e.raw[f].Some?
    requires page / DATA_PAGES <= |d.links.lists[f]|
    ensures |e.links.lists[f]| == |OnePage(Measure(d, f), page).lens|
    ensures j < |e.links.lists[f]| ==> Measure(e, f).lens[j] == OnePage(Measure(d, f), page).lens[j]
  {
    CostIsNeed(d, f, page);
    Apart(d.links, f);
    Apart(e.links, f);
    hide LinksOk, ListOk, NeedsBlock;
  }

  /** A page write takes as many free blocks as planned, and leaves the file as planned. */
  lemma MeasureStep(crc: Checksum, d: Disk, g: Disk, e: Disk, f: nat, page: nat, rec: Rec)
    requires DiskOk(crc, d) && f < FILES && d.raw[f].Some? && PageFits(d.raw[f].value, page, rec)
    requires DiskShape(g) && RoomCost(d, g, f, page) && DiskShape(e) && LinksOk(e.links) && Logged(g, e, f, page)
    requires |e.flash| == |d.flash| && e.raw[f] == Some(PutPage(d.raw[f].value, page, rec))
    ensures Measure(e, f) == OnePage(Measure(d, f), page)
    ensures |e.links.lists[FREE]| == |d.links.lists[FREE]| - PageCost(Measure(d, f), page)
  {
    var k := page / DATA_PAGES;
    SizeBound(crc, d, f);
    PagePlace(|d.raw[f].value|, page);
    LensStep(d, g, e, f, page, 0);
    PagesGrow(d.raw[f].value, page, rec);
    CostIsNeed(d, f, page);
    hide DiskOk, LinksOk, ListOk, NeedsBlock, PageFits, PutPage;
    forall j | 0 <= j < |e.links.lists[f]|
      ensures Measure(e, f).lens[j] == OnePage(Measure(d, f), page).lens[j]
    {
      LensStep(d, g, e, f, page, j);
    }
  }
}
