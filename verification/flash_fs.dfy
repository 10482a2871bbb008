/** The byte layer: a file is a 128-byte header (its name page and a reserved page) followed by user data. */
module FlashFs {
  import opened Bytes
  import opened FfsLayout
  import opened FfsLists
  import opened FfsFile
  import opened FfsBlock
  import opened FfsDisk
  import opened FfsPage
  import opened FfsCost

  const META_BYTES: nat := 128
  const FIRST_DATA_PAGE: nat := 2

  ghost predicate Exists(fs: FileSystem, f: nat)
    reads fs
  {
    f < FILES && |fs.raw| == FILES && fs.raw[f].Some? && |fs.raw[f].value| >= META_BYTES
  }

  /** The user data of file f. */
  ghost function Contents(fs: FileSystem, f: nat): seq<byte>
    requires Exists(fs, f)
    reads fs
  {
    fs.raw[f].value[META_BYTES..]
  }

  /** The name page: the characters of a name up to its first zero, at most 64 of them, then zeros. A name that fills
      the page is not terminated. */
  function NamePage(name: seq<byte>): (r: seq<byte>)
    ensures |r| == PAGE_SIZE
  {
    seq(PAGE_SIZE, i requires 0 <= i < PAGE_SIZE => if i < |name| && 0 !in name[..i] then name[i] else 0)
  }

  /** Two names have the same name page exactly if their first 64 characters agree. */
  lemma NamesDiffer(a: seq<byte>, b: seq<byte>)
    requires 0 !in a && 0 !in b
    ensures NamePage(a) == NamePage(b) <==> a[..Min(|a|, 64)] == b[..Min(|b|, 64)]
  {
    NameStands(a);
    NameStands(b);
    var x, y := a[..Min(|a|, 64)], b[..Min(|b|, 64)];
    assert forall i :: 0 <= i < |x| ==> NamePage(a)[i] == x[i] == a[i];
    assert forall i :: 0 <= i < |y| ==> NamePage(b)[i] == y[i] == b[i];
    if NamePage(a) == NamePage(b) {
      var k := Min(|x|, |y|);
      assert k < 64 ==> NamePage(a)[k] == NamePage(b)[k];
    }
    if x == y {
      forall i | 0 <= i < 64
        ensures NamePage(a)[i] == NamePage(b)[i]
      {
        assert i < |x| ==> x[i] == y[i];
      }
    }
  }

  lemma NameStands(name: seq<byte>)
    requires 0 !in name
    ensures var n := Min(|name|, 64);
            NamePage(name)[..n] == name[..n] && forall i :: n <= i < 64 ==> NamePage(name)[i] == 0
  {
  }

  function ReservedPage(): (r: seq<byte>)
    ensures |r| == PAGE_SIZE
  {
    seq(PAGE_SIZE, i => 255 as byte)
  }

  /** The size of the user data, or an error for a missing file or one without its header. */
  method FileSize(fs: FileSystem, f: nat) returns (size: int)
    requires fs.Valid() && f < FILES
    ensures Exists(fs, f) ==> size == |Contents(fs, f)|
    ensures !Exists(fs, f) ==> size < 0
  {
    assert FileBody(fs.crc, fs.State(), f);
    var rawSize := fs.sizes[f];
    if rawSize < 0 {
      return rawSize;
    }
    if rawSize < META_BYTES {
      return STATUS_ERROR;
    }
    return rawSize - META_BYTES;
  }

  /** The slots used in each block of file f, and its pages. */
  ghost function PlanOf(fs: FileSystem, f: nat): Plan
    requires fs.Valid() && f < FILES && fs.raw[f].Some?
    reads fs, fs.dev, fs.dev.next, fs.dev.heads, fs.dev.flash, fs.sizes
  {
    Measure(fs.State(), f)
  }

  /** File f fills the device to its last byte. */
  ghost predicate FillsDevice(fs: FileSystem, f: nat)
    requires Exists(fs, f)
    reads fs, fs.dev
  {
    META_BYTES + |Contents(fs, f)| == BLOCK_DATA * fs.dev.total
  }

  /** Looking up the page user position `pos` falls in trips an assertion exactly at the end of a file that fills the
      device: the page right behind it would be in a block the device does not have. */
  lemma TrapsAtTheEnd(fs: FileSystem, f: nat, pos: nat)
    requires fs.Valid() && Exists(fs, f) && pos <= |Contents(fs, f)|
    ensures META_BYTES + |Contents(fs, f)| <= BLOCK_DATA * fs.dev.total
    ensures Traps(pos / PAGE_SIZE + FIRST_DATA_PAGE, fs.dev.total) <==> META_BYTES + pos == BLOCK_DATA * fs.dev.total
    ensures Traps(pos / PAGE_SIZE + FIRST_DATA_PAGE, fs.dev.total) <==> FillsDevice(fs, f) && pos == |Contents(fs, f)|
    ensures !Traps(pos / PAGE_SIZE + FIRST_DATA_PAGE, fs.dev.total) ==>
              Wrapped(pos / PAGE_SIZE + FIRST_DATA_PAGE) == pos / PAGE_SIZE + FIRST_DATA_PAGE
  {
    SizeBound(fs.crc, fs.State(), f);
    var total := fs.dev.total;
    hide DiskOk;
    PlaceOf(pos, total);
  }

  /** Read `len` bytes at `position`: exactly the stored slice, or an error when the request runs past the end. Running
      past the end of a file that fills the device stops the system. */
  method Read(fs: FileSystem, f: nat, position: nat, len: nat) returns (status: int, data: seq<byte>)
    requires fs.Valid() && Exists(fs, f)
    ensures var c := Contents(fs, f);
            && (position >= |c| ==> status == STATUS_EOF && data == [])
            && (position < |c| && position + len <= |c| ==> status == len && data == c[position..position + len])
            && (position < |c| < position + len ==>
                  data == c[position..] && status == if FillsDevice(fs, f) then HALTED else STATUS_ERROR)
  {
    ghost var c := Contents(fs, f);
    var fileSize := FileSize(fs, f);
    data := [];
    if position >= fileSize {
      return STATUS_EOF, data;
    }
    var pos, left := position, len;
    while left > 0
      invariant 0 <= left && position <= pos <= |c| && pos + left == position + len
      invariant data == c[position..pos]
      decreases left
    {
      var s, chunk := ReadChunk(fs, f, pos, left);
      if s < 0 {
        return s, data;
      }
      SliceMore(c, position, pos, chunk);
      data := data + chunk;
      pos := pos + |chunk|;
      left := left - |chunk|;
    }
    assert pos == position + len;
    return len, data;
  }

  lemma SliceMore(c: seq<byte>, from: nat, pos: nat, chunk: seq<byte>)
    requires from <= pos && pos + |chunk| <= |c| && chunk == c[pos..pos + |chunk|]
    ensures c[from..pos] + chunk == c[from..pos + |chunk|]
  {
  }

  /** The caller of Read clamps the request to the end of the file first, so it gets the rest of the file and no error.
      Past the end the 16-bit length wraps, but the read that follows is refused. */
  method ReadFromMedia(fs: FileSystem, f: nat, pos: nat, len: nat) returns (count: nat, data: seq<byte>)
    requires fs.Valid() && Exists(fs, f) && len < 65536
    ensures var c := Contents(fs, f);
            && count == |data| && data == c[Min(pos, |c|)..Min(pos + len, |c|)]
  {
    hide DiskOk;
    var size := FileSize(fs, f);
    var n := len;
    if pos + n >= size {
      n := (size - pos) % 65536;
    }
    var status, d := Read(fs, f, pos, n);
    if status < 0 {
      return 0, [];
    }
    return status, d;
  }

  /** Bytes a read takes from a page holding `len` bytes. */
  function ReadLength(len: nat, offset: nat, left: nat): nat
    requires offset <= len
  {
    Min(Min(PAGE_SIZE, left), len - offset)
  }

  /** The bytes of the page at `pos` are the file's, and they end only where the file ends. */
  lemma SliceOfPage(raw: seq<byte>, o: Option<Rec>, pos: nat, left: nat)
    requires META_BYTES + pos <= |raw| && left > 0 && Shows(o, raw, pos / PAGE_SIZE + FIRST_DATA_PAGE)
    ensures o.None? ==> META_BYTES + pos == |raw|
    ensures o.Some? ==> o.value.Ok() && pos % PAGE_SIZE <= o.value.len
    ensures o.Some? ==>
              var n := ReadLength(o.value.len, pos % PAGE_SIZE, left);
              && META_BYTES + pos + n <= |raw|
              && o.value.data[pos % PAGE_SIZE..pos % PAGE_SIZE + n] == raw[META_BYTES + pos..META_BYTES + pos + n]
              && (n == 0 <==> META_BYTES + pos == |raw|)
  {
    var offset := pos % PAGE_SIZE;
    var base := PAGE_SIZE * (pos / PAGE_SIZE + FIRST_DATA_PAGE);
    assert base + offset == META_BYTES + pos;
    if o.Some? {
      var rec := o.value;
      var n := ReadLength(rec.len, offset, left);
      assert rec.Bytes() == raw[base..base + rec.len];
      SliceSlice(raw, base, base + rec.len, offset, offset + n);
      SliceSlice(rec.data, 0, rec.len, offset, offset + n);
    }
  }

  lemma PlaceOf(pos: nat, total: nat)
    requires META_BYTES + pos <= BLOCK_DATA * total && 0 < total < 256
    ensures PAGE_SIZE * (pos / PAGE_SIZE + FIRST_DATA_PAGE) <= META_BYTES + pos
    ensures META_BYTES + pos < BLOCK_DATA * total ==> (pos / PAGE_SIZE + FIRST_DATA_PAGE) / DATA_PAGES < total
    ensures META_BYTES + pos == BLOCK_DATA * total ==> pos / PAGE_SIZE + FIRST_DATA_PAGE == DATA_PAGES * total
    ensures Traps(pos / PAGE_SIZE + FIRST_DATA_PAGE, total) <==> META_BYTES + pos == BLOCK_DATA * total
    ensures !Traps(pos / PAGE_SIZE + FIRST_DATA_PAGE, total) ==>
              Wrapped(pos / PAGE_SIZE + FIRST_DATA_PAGE) == pos / PAGE_SIZE + FIRST_DATA_PAGE
  {
    WrappedParts(pos / PAGE_SIZE + FIRST_DATA_PAGE);
    if META_BYTES + pos == BLOCK_DATA * total {
      assert pos == PAGE_SIZE * (DATA_PAGES * total - FIRST_DATA_PAGE);
    }
  }

  /** The page user position `pos` falls in, None right after the last page. */
  method LoadPage(fs: FileSystem, f: nat, pos: nat) returns (status: int, rec: Rec)
    requires fs.Valid() && Exists(fs, f) && pos <= |Contents(fs, f)|
    ensures status == STATUS_OK || status == STATUS_EOF || status == HALTED
    ensures status == HALTED <==> META_BYTES + pos == BLOCK_DATA * fs.dev.total
    ensures status == HALTED <==> FillsDevice(fs, f) && pos == |Contents(fs, f)|
    ensures status != HALTED ==>
              Shows(if status == STATUS_OK then Some(rec) else None, fs.raw[f].value, pos / PAGE_SIZE + FIRST_DATA_PAGE)
  {
    var filePage := pos / PAGE_SIZE + FIRST_DATA_PAGE;
    TrapsAtTheEnd(fs, f, pos);
    PageShows(fs.crc, fs.State(), f, filePage);
    status, rec := fs.ReadPage(f, filePage);
  }

  /** The part of one page a read takes. At the end of the file there is nothing to take, which is an error. */
  method ReadChunk(fs: FileSystem, f: nat, pos: nat, left: nat) returns (status: int, chunk: seq<byte>)
    requires fs.Valid() && Exists(fs, f) && left > 0 && pos <= |Contents(fs, f)|
    ensures pos < |Contents(fs, f)| ==>
              && status == STATUS_OK && 0 < |chunk| <= left && pos + |chunk| <= |Contents(fs, f)|
              && chunk == Contents(fs, f)[pos..pos + |chunk|]
    ensures pos == |Contents(fs, f)| ==> status == if FillsDevice(fs, f) then HALTED else STATUS_ERROR
  {
    var s, page := LoadPage(fs, f, pos);
    if s == HALTED {
      return HALTED, [];
    }
    if s < 0 {
      chunk := TakeChunk(None, pos, left, fs.raw[f].value);
      return STATUS_ERROR, [];
    }
    chunk := TakeChunk(Some(page), pos, left, fs.raw[f].value);
    return if chunk == [] then STATUS_ERROR else STATUS_OK, chunk;
  }

  method TakeChunk(page: Option<Rec>, pos: nat, left: nat, ghost raw: seq<byte>) returns (chunk: seq<byte>)
    requires META_BYTES + pos <= |raw| && left > 0 && Shows(page, raw, pos / PAGE_SIZE + FIRST_DATA_PAGE)
    ensures |chunk| <= left && META_BYTES + pos + |chunk| <= |raw|
    ensures chunk == raw[META_BYTES..][pos..pos + |chunk|]
    ensures chunk == [] <==> META_BYTES + pos == |raw|
  {
    SliceOfPage(raw, page, pos, left);
    if page.None? {
      return [];
    }
    var offset := pos % PAGE_SIZE;
    assert offset <= page.value.len;
    var n := ReadLength(page.value.len, offset, left);
    SliceSlice(raw, META_BYTES, |raw|, pos, pos + n);
    return page.value.data[offset..offset + n];
  }

  /** A write of `len` bytes at `position` runs to the end of the device, and past it. */
  ghost predicate Overruns(fs: FileSystem, f: nat, position: nat, len: nat)
    requires Exists(fs, f)
    reads fs, fs.dev
  {
    position <= |Contents(fs, f)| && META_BYTES + position + len > BLOCK_DATA * fs.dev.total
  }

  /** The file page a user position falls in. */
  function PageOf(pos: nat): nat { (META_BYTES + pos) / PAGE_SIZE }

  /** The file page behind the last one that `len` bytes written at `position` go to. */
  function EndPage(position: nat, len: nat): (r: nat)
    ensures r >= PageOf(position)
  {
    if len == 0 then PageOf(position) else (META_BYTES + position + len + PAGE_SIZE - 1) / PAGE_SIZE
  }

  /** What of `len` bytes written at `position` got in, and what it took: of the `free` blocks there were, and of the
      slots in plan `s`. A write stops short only between two pages, and only when the next one needs a block and none
      is left. */
  predicate Paid(s: Plan, free: int, position: nat, len: nat, done: nat, after: Plan, left: int) {
    && after == Written(s, PageOf(position), EndPage(position, done))
    && left == free - Cost(s, PageOf(position), EndPage(position, done))
    && (done == len <==> Cost(s, PageOf(position), EndPage(position, len)) <= free)
    && (done < len ==> left == 0 && Cost(s, PageOf(position), EndPage(position, done) + 1) > free)
    && (0 < done < len ==> (META_BYTES + position + done) % PAGE_SIZE == 0)
  }

  /** Write `data` at `position` (at most the end of the file). On success the file is exactly the old file with the
      data spliced in; when the device runs out of free blocks, the splice of the `done` bytes that fit. All of it gets
      in exactly if the pages cost no more blocks than are free. A write that would go past the end of the device stops
      the system once the file owns all of it, which it does exactly if its pages up to there cost no more than that. */
  method Write(fs: FileSystem, f: nat, position: nat, data: seq<byte>) returns (status: int, ghost done: nat)
    requires fs.Valid() && Exists(fs, f)
    modifies fs, fs.dev, fs.dev.next, fs.dev.heads, fs.dev.flash, fs.sizes
    ensures fs.Valid() && Exists(fs, f) && done <= |data|
    ensures forall g :: 0 <= g < FILES && g != f ==> fs.raw[g] == old(fs.raw)[g]
    ensures position > old(|Contents(fs, f)|) ==> status == STATUS_EOF && fs.State() == old(fs.State())
    ensures position <= old(|Contents(fs, f)|) ==>
              && Contents(fs, f) == Splice(old(Contents(fs, f)), position, data[..done])
              && Paid(old(PlanOf(fs, f)), old(fs.dev.freeBlocks), position, |data|, done,
                      PlanOf(fs, f), fs.dev.freeBlocks)
              && status == if done == |data| then |data| else if FillsDevice(fs, f)
                             && META_BYTES + position + done == BLOCK_DATA * fs.dev.total then HALTED else STATUS_ERROR
    ensures status == HALTED <==>
              && old(Overruns(fs, f, position, |data|))
              && Cost(old(PlanOf(fs, f)), PageOf(position), DATA_PAGES * fs.dev.total)
                 <= old(fs.dev.freeBlocks)
  {
    hide DiskOk, LinksOk, Splice, PageOf, Cost, PageCost, OnePage, PlanOf, Paid, Underway, WriteLength;
    done := 0;
    var fileSize := FileSize(fs, f);
    SizeFits(fs, f);
    if position > fileSize {
      return STATUS_EOF, 0;
    }
    ghost var c, s, free := Contents(fs, f), PlanOf(fs, f), fs.dev.freeBlocks;
    SpliceNone(c, position);
    Begin(s, free, position, |data|);
    assert data[..0] == [];
    var written := 0;
    while written < |data|
      invariant 0 <= written <= |data| && done == written
      invariant fs.Valid() && Exists(fs, f)
      invariant forall g :: 0 <= g < FILES && g != f ==> fs.raw[g] == old(fs.raw)[g]
      invariant Contents(fs, f) == Splice(c, position, data[..written])
      invariant position + written <= |Contents(fs, f)|
      invariant Underway(s, free, position, |data|, written, PlanOf(fs, f), fs.dev.freeBlocks)
    {
      ghost var now, left := PlanOf(fs, f), fs.dev.freeBlocks;
      var status', n := WriteChunk(fs, f, position + written, data[written..]);
      if status' < 0 {
        SizeFits(fs, f);
        StopsHere(s, free, position, |data|, written, now, fs.dev.total);
        return status', written;
      }
      Advance(s, free, position, |data|, written, now, left);
      SpliceMore(c, position, data, written, n);
      written := written + n;
      done := written;
    }
    SizeFits(fs, f);
    Finish(s, free, position, |data|, PlanOf(fs, f), fs.dev.freeBlocks);
    return |data|, written;
  }

  /** What the loop of Write keeps: the pages written so far are paid for, and the next byte starts a page. */
  predicate Underway(s: Plan, free: int, position: nat, len: nat, written: nat, now: Plan, left: int) {
    && now == Written(s, PageOf(position), EndPage(position, written))
    && left == free - Cost(s, PageOf(position), EndPage(position, written)) >= 0
    && (written == 0 || written == len || (META_BYTES + position + written) % PAGE_SIZE == 0)
  }

  lemma Begin(s: Plan, free: nat, position: nat, len: nat)
    ensures Underway(s, free, position, len, 0, s, free)
  {
    CostStep(s, PageOf(position), PageOf(position));
  }

  lemma Finish(s: Plan, free: nat, position: nat, len: nat, now: Plan, left: nat)
    requires Underway(s, free, position, len, len, now, left)
    ensures Paid(s, free, position, len, len, now, left)
  {
  }

  /** The next chunk goes to the next page, and is paid like it. */
  lemma Advance(s: Plan, free: nat, position: nat, len: nat, written: nat, now: Plan, left: nat)
    requires written < len && Underway(s, free, position, len, written, now, left)
    requires PageCost(now, PageOf(position + written)) <= left
    ensures var n, page := WriteLength((position + written) % PAGE_SIZE, len - written), PageOf(position + written);
            Underway(s, free, position, len, written + n, OnePage(now, page), left - PageCost(now, page))
  {
    hide Cost, Written, PageOf, EndPage, WriteLength;
    NextPage(position, len, written);
    CostStep(s, PageOf(position), EndPage(position, written));
  }

  lemma NextPage(position: nat, len: nat, written: nat)
    requires written < len && (written == 0 || (META_BYTES + position + written) % PAGE_SIZE == 0)
    ensures EndPage(position, written) == PageOf(position + written)
    ensures var n := WriteLength((position + written) % PAGE_SIZE, len - written);
            && EndPage(position, written + n) == EndPage(position, written) + 1
            && (written + n == len || (META_BYTES + position + written + n) % PAGE_SIZE == 0)
  {
    var at, offset := META_BYTES + position + written, (position + written) % PAGE_SIZE;
    var n, u := WriteLength(offset, len - written), PageOf(position + written);
    DivModUnique(at, PAGE_SIZE, (position + written) / PAGE_SIZE + FIRST_DATA_PAGE, offset);
    assert at == PAGE_SIZE * u + offset;
    DivModUnique(at + n + PAGE_SIZE - 1, PAGE_SIZE, u + 1, offset + n - 1);
    if written > 0 {
      DivModUnique(at + PAGE_SIZE - 1, PAGE_SIZE, u, PAGE_SIZE - 1);
    }
    if written + n < len {
      DivModUnique(at + n, PAGE_SIZE, u + 1, 0);
    }
  }

  /** A page that needs a block when none is left: neither the data nor the rest of the device can be paid. */
  lemma StopsHere(s: Plan, free: nat, position: nat, len: nat, written: nat, now: Plan, total: nat)
    requires written < len && Underway(s, free, position, len, written, now, 0)
    requires PageCost(now, PageOf(position + written)) == 1
    requires META_BYTES + position + written <= BLOCK_DATA * total
    ensures Paid(s, free, position, len, written, now, 0)
    ensures META_BYTES + position + written == BLOCK_DATA * total <==>
              Cost(s, PageOf(position), DATA_PAGES * total) <= free
  {
    hide Cost, Written, PageOf, EndPage, WriteLength;
    NextPage(position, len, written);
    CostStep(s, PageOf(position), EndPage(position, written));
    PagesAhead(position, written, len, total);
    CostGrows(s, PageOf(position), EndPage(position, written) + 1, EndPage(position, len));
    if META_BYTES + position + written < BLOCK_DATA * total {
      CostGrows(s, PageOf(position), EndPage(position, written) + 1, DATA_PAGES * total);
    }
  }

  lemma PagesAhead(position: nat, written: nat, len: nat, total: nat)
    requires written < len
    ensures PageOf(position + written) + 1 <= EndPage(position, len)
    ensures META_BYTES + position + written < BLOCK_DATA * total ==>
              PageOf(position + written) + 1 <= DATA_PAGES * total
    ensures META_BYTES + position + written == BLOCK_DATA * total ==> PageOf(position + written) == DATA_PAGES * total
  {
  }

  lemma SizeFits(fs: FileSystem, f: nat)
    requires fs.Valid() && Exists(fs, f)
    ensures META_BYTES + |Contents(fs, f)| <= BLOCK_DATA * fs.dev.total
  {
    SizeBound(fs.crc, fs.State(), f);
  }

  lemma SpliceNone(c: seq<byte>, position: nat)
    requires position <= |c|
    ensures Splice(c, position, []) == c
  {
  }

  lemma SpliceMore(c: seq<byte>, position: nat, data: seq<byte>, written: nat, n: nat)
    requires position <= |c| && written + n <= |data|
    ensures position + written <= |Splice(c, position, data[..written])|
    ensures Splice(Splice(c, position, data[..written]), position + written, data[written..][..n])
            == Splice(c, position, data[..written + n])
  {
    SpliceSplice(c, position, data[..written], data[written..][..n]);
    assert data[..written] + data[written..][..n] == data[..written + n];
  }

  /** Bytes a write puts into one page: as many as are left and fit behind the offset. */
  function WriteLength(offset: nat, left: nat): nat
    requires offset < PAGE_SIZE
  {
    Min(Min(PAGE_SIZE, left), PAGE_SIZE - offset)
  }

  lemma WholeFile(raw: seq<byte>, w: seq<byte>, pos: nat, chunk: seq<byte>)
    requires META_BYTES + pos <= |raw| && w == Splice(raw, META_BYTES + pos, chunk)
    ensures |w| >= META_BYTES && w[META_BYTES..] == Splice(raw[META_BYTES..], pos, chunk)
  {
  }

  /** Read a page (or start a blank one past the end), overlay the first bytes of `data`, write it back. The page gets
      in exactly if it costs no block or there is one; if it does not, nothing changes. */
  method WriteChunk(fs: FileSystem, f: nat, pos: nat, data: seq<byte>) returns (status: int, n: nat)
    requires fs.Valid() && Exists(fs, f) && pos <= |Contents(fs, f)| && |data| > 0
    modifies fs, fs.dev, fs.dev.next, fs.dev.heads, fs.dev.flash, fs.sizes
    ensures fs.Valid() && Exists(fs, f)
    ensures status == STATUS_OK || status == STATUS_ERROR || status == HALTED
    ensures status == STATUS_OK <==> PageCost(old(PlanOf(fs, f)), PageOf(pos)) <= old(fs.dev.freeBlocks)
    ensures status == HALTED <==> META_BYTES + pos == BLOCK_DATA * fs.dev.total
    ensures status == HALTED <==> old(FillsDevice(fs, f)) && pos == |old(Contents(fs, f))|
    ensures status != STATUS_OK ==>
              && fs.State() == old(fs.State()) && PlanOf(fs, f) == old(PlanOf(fs, f))
              && fs.dev.freeBlocks == old(fs.dev.freeBlocks) == 0
    ensures status == STATUS_OK ==>
              && 0 < n == WriteLength(pos % PAGE_SIZE, |data|) <= |data| && pos + n <= |Contents(fs, f)|
              && Contents(fs, f) == Splice(old(Contents(fs, f)), pos, data[..n])
              && (forall g :: 0 <= g < FILES && g != f ==> fs.raw[g] == old(fs.raw)[g])
              && PlanOf(fs, f) == OnePage(old(PlanOf(fs, f)), PageOf(pos))
              && fs.dev.freeBlocks == old(fs.dev.freeBlocks) - PageCost(old(PlanOf(fs, f)), PageOf(pos))
  {
    hide DiskOk, LinksOk, PageFits, Shows, PageOf, PageCost, OnePage;
    var s, page := LoadPage(fs, f, pos);
    SamePage(pos);
    if s == HALTED {
      FullAlready(fs, f);
      return HALTED, 0;
    }
    n := WriteLength(pos % PAGE_SIZE, |data|);
    var rec := FillPage(if s == STATUS_OK then Some(page) else None, pos, data[..n], fs.raw[f].value);
    status := StoreChunk(fs, f, pos, rec, data[..n]);
  }

  lemma SamePage(pos: nat)
    ensures PageOf(pos) == pos / PAGE_SIZE + FIRST_DATA_PAGE
  {
    DivModUnique(META_BYTES + pos, PAGE_SIZE, pos / PAGE_SIZE + FIRST_DATA_PAGE, pos % PAGE_SIZE);
  }

  /** Write the page that puts `chunk` at user position `pos`. */
  method StoreChunk(fs: FileSystem, f: nat, pos: nat, rec: Rec, ghost chunk: seq<byte>) returns (status: int)
    requires fs.Valid() && Exists(fs, f) && pos <= |Contents(fs, f)|
    requires PageFits(fs.raw[f].value, pos / PAGE_SIZE + FIRST_DATA_PAGE, rec)
    requires var w := PutPage(fs.raw[f].value, pos / PAGE_SIZE + FIRST_DATA_PAGE, rec);
             |w| >= META_BYTES && w[META_BYTES..] == Splice(Contents(fs, f), pos, chunk)
    modifies fs, fs.dev, fs.dev.next, fs.dev.heads, fs.dev.flash, fs.sizes
    ensures fs.Valid() && Exists(fs, f) && (status == STATUS_OK || status == STATUS_ERROR)
    ensures var page, s := pos / PAGE_SIZE + FIRST_DATA_PAGE, old(PlanOf(fs, f));
            && (status == STATUS_OK <==> PageCost(s, page) <= old(fs.dev.freeBlocks))
            && (status == STATUS_OK ==>
                  && Contents(fs, f) == Splice(old(Contents(fs, f)), pos, chunk)
                  && (forall g :: 0 <= g < FILES && g != f ==> fs.raw[g] == old(fs.raw)[g])
                  && PlanOf(fs, f) == OnePage(s, page)
                  && fs.dev.freeBlocks == old(fs.dev.freeBlocks) - PageCost(s, page))
    ensures status == STATUS_ERROR ==> fs.State() == old(fs.State()) && fs.dev.freeBlocks == old(fs.dev.freeBlocks)
  {
    hide DiskOk, LinksOk, PageFits, PutPage, Splice, PageCost, OnePage;
    status := StoreRec(fs, f, pos / PAGE_SIZE + FIRST_DATA_PAGE, rec);
  }

  lemma FullAlready(fs: FileSystem, f: nat)
    requires fs.Valid() && Exists(fs, f) && FillsDevice(fs, f)
    ensures fs.dev.freeBlocks == 0 && PageCost(PlanOf(fs, f), PageOf(|Contents(fs, f)|)) == 1
  {
    AtTheEnd(fs.crc, fs.State(), f);
    hide DiskOk;
    assert PageOf(|Contents(fs, f)|) == DATA_PAGES * fs.dev.total;
  }

  method FillPage(page: Option<Rec>, pos: nat, chunk: seq<byte>, ghost raw: seq<byte>) returns (rec: Rec)
    requires META_BYTES + pos <= |raw| && 0 < |chunk| <= PAGE_SIZE - pos % PAGE_SIZE
    requires Shows(page, raw, pos / PAGE_SIZE + FIRST_DATA_PAGE)
    ensures PageFits(raw, pos / PAGE_SIZE + FIRST_DATA_PAGE, rec)
    ensures var w := PutPage(raw, pos / PAGE_SIZE + FIRST_DATA_PAGE, rec);
            |w| >= META_BYTES && w[META_BYTES..] == Splice(raw[META_BYTES..], pos, chunk)
  {
    var filePage := pos / PAGE_SIZE + FIRST_DATA_PAGE;
    var offset := pos % PAGE_SIZE;
    assert PAGE_SIZE * filePage + offset == META_BYTES + pos;
    OverlayIsSplice(raw, filePage, page, offset, chunk);
    rec := Overlay(page, offset, chunk);
    WholeFile(raw, PutPage(raw, filePage, rec), pos, chunk);
  }

  method StoreRec(fs: FileSystem, f: nat, page: nat, rec: Rec) returns (status: int)
    requires fs.Valid() && f < FILES && fs.raw[f].Some? && PageFits(fs.raw[f].value, page, rec)
    modifies fs, fs.dev, fs.dev.next, fs.dev.heads, fs.dev.flash, fs.sizes
    ensures fs.Valid() && (status == STATUS_OK || status == STATUS_ERROR)
    ensures status == STATUS_OK ==> fs.raw == old(fs.raw)[f := Some(PutPage(old(fs.raw[f].value), page, rec))]
    ensures var s := old(PlanOf(fs, f));
            && (status == STATUS_OK <==> PageCost(s, page) <= old(fs.dev.freeBlocks))
            && (status == STATUS_OK ==>
                  && PlanOf(fs, f) == OnePage(s, page)
                  && fs.dev.freeBlocks == old(fs.dev.freeBlocks) - PageCost(s, page))
    ensures status == STATUS_ERROR ==> fs.State() == old(fs.State()) && fs.dev.freeBlocks == old(fs.dev.freeBlocks)
  {
    ghost var d := fs.State();
    EofTestLooseness(|fs.raw[f].value|, page);
    CostIsNeed(d, f, page);
    ghost var g;
    status, g := fs.WritePage(f, page, rec);
    hide DiskOk, LinksOk, PageCost, OnePage, NeedsBlock, PutPage;
    if status == STATUS_OK {
      MeasureStep(fs.crc, d, g, fs.State(), f, page, rec);
    }
  }

  // ---- creating, naming, deleting ----

  /** Create a file: an id, one block, and the two header pages. Once the block is there the header always fits. */
  method CreateFile(fs: FileSystem, name: seq<byte>) returns (file: int)
    requires fs.Valid()
    modifies fs, fs.dev, fs.dev.next, fs.dev.heads, fs.dev.flash, fs.sizes
    ensures fs.Valid()
    ensures file == STATUS_NO_FREE_FILES <==> forall f :: 0 <= f < FILES ==> old(fs.raw)[f].Some?
    ensures file == STATUS_NO_FREE_SPACE <==>
        (exists f :: 0 <= f < FILES && old(fs.raw)[f].None?) && old(fs.dev.freeBlocks) == 0
    ensures file < 0 ==> (file == STATUS_NO_FREE_FILES || file == STATUS_NO_FREE_SPACE) && fs.State() == old(fs.State())
    ensures file >= 0 ==>
              && file < FILES && old(fs.raw)[file].None? && (forall g :: 0 <= g < file ==> old(fs.raw)[g].Some?)
              && fs.raw == old(fs.raw)[file := Some(NamePage(name) + ReservedPage())]
              && Exists(fs, file) && Contents(fs, file) == []
              && (forall i :: 0 <= i < 64 ==>
                    fs.raw[file].value[i] == if i < |name| && 0 !in name[..i] then name[i] else 0)
              && (forall i :: 64 <= i < 128 ==> fs.raw[file].value[i] == 255)
              && fs.dev.freeBlocks == old(fs.dev.freeBlocks) - 1 && PlanOf(fs, file) == Plan([2], 2)
  {
    hide DiskOk;
    file := fs.CreateFile();
    if file < 0 {
      return;
    }
    PutHeader(fs, file, name);
  }

  /** The two header pages of a file whose only block has just been added. */
  method PutHeader(fs: FileSystem, f: nat, name: seq<byte>)
    requires fs.Valid() && f < FILES && fs.raw[f] == Some([])
    requires ListOk(fs.dev.View(), f) && |fs.dev.lists[f]| == 1 && fs.logs[fs.dev.lists[f][0]] == []
    modifies fs, fs.dev, fs.dev.next, fs.dev.heads, fs.dev.flash, fs.sizes
    ensures fs.Valid() && fs.raw == old(fs.raw)[f := Some(NamePage(name) + ReservedPage())]
    ensures fs.dev.freeBlocks == old(fs.dev.freeBlocks)
    ensures ListOk(fs.dev.View(), f) && |fs.dev.lists[f]| == 1 && |fs.logs[fs.dev.lists[f][0]]| == 2
  {
    var header0 := Rec(PAGE_SIZE, NamePage(name));
    var header1 := Rec(PAGE_SIZE, ReservedPage());
    assert header0.Bytes() == header0.data && header1.Bytes() == header1.data;
    hide DiskOk, LinksOk, NamePage;
    var status0, g0 := fs.WritePage(f, 0, header0);
    assert status0 == STATUS_OK && fs.raw[f].value == header0.data;
    var status1, g1 := fs.WritePage(f, 1, header1);
    assert status1 == STATUS_OK;
    assert fs.raw[f].value == header0.data + header1.data;
  }

  /** The 64 bytes of the name page. */
  method ReadFilename(fs: FileSystem, f: nat) returns (name: seq<byte>)
    requires fs.Valid() && Exists(fs, f)
    ensures name == fs.raw[f].value[..PAGE_SIZE]
  {
    PageShows(fs.crc, fs.State(), f, 0);
    var status, rec := fs.ReadPage(f, 0);
    assert rec.Bytes() == fs.raw[f].value[0..PAGE_SIZE];
    return rec.data;
  }

  /** A client that creates a file and asks for its name. */
  method NameReadsBack(fs: FileSystem, name: seq<byte>) returns (file: int, back: seq<byte>)
    requires fs.Valid() && 0 !in name && |name| <= 64
    modifies fs, fs.dev, fs.dev.next, fs.dev.heads, fs.dev.flash, fs.sizes
    ensures file >= 0 <==> (exists f :: 0 <= f < FILES && old(fs.raw)[f].None?) && old(fs.dev.freeBlocks) > 0
    ensures file >= 0 ==>
              |back| == 64 && back[..|name|] == name && forall i :: |name| <= i < 64 ==> back[i] == 0
  {
    hide DiskOk, LinksOk;
    file := CreateFile(fs, name);
    back := [];
    if file >= 0 {
      back := ReadFilename(fs, file);
    }
  }

  /** A run that stops the system, first by writing and then by reading past the end of a file that fills its device:
      the two header pages of a new file leave 57 slots for the other 49 pages of its block. */
  method FullDeviceHalts(crc: Checksum, name: seq<byte>, data: seq<byte>) returns (written: int, read: int)
    requires |data| > BLOCK_DATA - META_BYTES
    ensures written == HALTED && read == HALTED
  {
    var fs := new FileSystem.Format(1, crc);
    assert fs.raw[0] == None;
    var f := CreateFile(fs, name);
    CostInBlock(Plan([2], 2), 0, PageOf(0), DATA_PAGES);
    hide Cost, DiskOk;
    ghost var done;
    written, done := Write(fs, f, 0, data);
    var bytes;
    read, bytes := Read(fs, f, 0, |data|);
  }

  /** The caller of Write clamps the request to an estimate of the free space first. It hears of nothing when the write
      stops short, though the bytes that got in stay in the file. */
  method WriteToMedia(fs: FileSystem, f: nat, position: nat, data: seq<byte>) returns (count: int, ghost done: nat)
    requires fs.Valid() && Exists(fs, f) && |data| < 65536
    modifies fs, fs.dev, fs.dev.next, fs.dev.heads, fs.dev.flash, fs.sizes
    ensures fs.Valid() && Exists(fs, f)
    ensures forall g :: 0 <= g < FILES && g != f ==> fs.raw[g] == old(fs.raw)[g]
    ensures position > old(|Contents(fs, f)|) ==> count == 0 && fs.State() == old(fs.State())
    ensures position <= old(|Contents(fs, f)|) ==>
              var n := Min(|data|, BLOCK_DATA * old(fs.dev.freeBlocks));
              && done <= n && Contents(fs, f) == Splice(old(Contents(fs, f)), position, data[..done])
              && Paid(old(PlanOf(fs, f)), old(fs.dev.freeBlocks), position, n, done,
                      PlanOf(fs, f), fs.dev.freeBlocks)
              && count == if done == n then n else if FillsDevice(fs, f)
                            && META_BYTES + position + done == BLOCK_DATA * fs.dev.total then HALTED else 0
  {
    hide DiskOk, LinksOk, Splice, PageOf, EndPage, Paid, PlanOf;
    var freeSpace := BLOCK_DATA * fs.dev.freeBlocks;
    var n := if |data| > freeSpace then freeSpace else |data|;
    var status;
    status, done := Write(fs, f, position, data[..n]);
    assert data[..n][..done] == data[..done];
    return if status < 0 && status != HALTED then 0 else status, done;
  }

  /** The plan of the file below: it fills two blocks of 51 pages, and some pages are written again until neither block
      has a slot left. Two pages across the border of the blocks then cost two blocks. */
  lemma TwoFullBlocks()
    ensures var s := Plan([2], 2);
            && Written(s, PageOf(0), EndPage(0, 6400)) == Plan([51, 51], 102)
            && Cost(s, PageOf(0), EndPage(0, 6400)) == 1
    ensures var s := Plan([51, 51], 102);
            && Written(s, PageOf(0), EndPage(0, 512)) == Plan([59, 51], 102)
            && Cost(s, PageOf(0), EndPage(0, 512)) == 0
    ensures var s := Plan([59, 51], 102);
            && Written(s, PageOf(3136), EndPage(3136, 512)) == Plan([59, 59], 102)
            && Cost(s, PageOf(3136), EndPage(3136, 512)) == 0
    ensures var s := Plan([59, 59], 102);
            && Cost(s, PageOf(3072), EndPage(3072, 64)) == 1 && Cost(s, PageOf(3072), EndPage(3072, 128)) == 2
  {
    hide Cost, Written;
    var s := Plan([2], 2);
    CostInBlock(s, 0, 2, 51);
    assert s.lens[0 := 51] == [51];
    CostOfNewBlock(Plan([51], 51), 102);
    assert [51] + [51] == [51, 51];
    CostSplit(s, 2, 51, 102);
    CostInBlock(Plan([51, 51], 102), 0, 2, 10);
    CostInBlock(Plan([59, 51], 102), 1, 51, 59);
    s := Plan([59, 59], 102);
    CostStep(s, 50, 50);
    CostStep(s, 50, 51);
  }

  lemma StopsHalfway(done: nat, after: Plan, left: int)
    requires done <= 128 && Paid(Plan([59, 59], 102), 1, 3072, 128, done, after, left)
    ensures done == 64
  {
    hide Cost, Written;
    TwoFullBlocks();
  }

  /** The run that leads there, on a device of three blocks. */
  method FillTwoBlocks(crc: Checksum, name: seq<byte>, body: seq<byte>, part: seq<byte>)
    returns (fs: FileSystem, f: nat)
    requires |body| == 6400 && |part| == 512
    ensures fs.Valid() && Exists(fs, f) && |Contents(fs, f)| == 6400 && PlanOf(fs, f) == Plan([59, 59], 102)
    ensures fs.dev.total == 3 && fs.dev.freeBlocks == 1
    ensures fresh(fs) && fresh(fs.dev) && fresh(fs.dev.next) && fresh(fs.dev.heads) && fresh(fs.dev.flash)
            && fresh(fs.sizes)
  {
    hide Cost, Written, PageOf, EndPage, DiskOk, LinksOk, Splice, PlanOf;
    TwoFullBlocks();
    fs := new FileSystem.Format(3, crc);
    assert fs.raw[0] == None;
    f := CreateFile(fs, name);
    var status, done := Write(fs, f, 0, body);
    status, done := Write(fs, f, 0, part);
    status, done := Write(fs, f, 3136, part);
  }

  /** With one block free the estimate promises 3264 bytes; a write of 128 stops after 64 of them, and its caller is
      told that none got in. */
  method EstimateFails(crc: Checksum, name: seq<byte>, body: seq<byte>, part: seq<byte>, last: seq<byte>)
    returns (estimate: nat, count: int, ghost done: nat)
    requires |body| == 6400 && |part| == 512 && |last| == 128
    ensures estimate == 3264 && count == 0 && done == 64
  {
    hide Cost, Written, PageOf, EndPage, DiskOk, LinksOk, Splice, PlanOf, Paid;
    var fs, f := FillTwoBlocks(crc, name, body, part);
    estimate := BLOCK_DATA * fs.dev.freeBlocks;
    count, done := WriteToMedia(fs, f, 3072, last);
    StopsHalfway(done, PlanOf(fs, f), fs.dev.freeBlocks);
  }
}
