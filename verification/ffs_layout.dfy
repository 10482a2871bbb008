/** The byte layout of one 4096-byte file system block, and the log of page writes it stores.

    offset    0  meta copy 0      (8 bytes: file id, flags, block, sequence, 4 reserved)
    offset    8  index copy 0     (59 bytes: logical page stored in each slot, 255 if the slot is free)
    offset   67  meta copy 1
    offset   75  index copy 1
    offset  134  59 page slots of 67 bytes: length, 64 data bytes, 16-bit checksum
    offset 4087  unused
*/
module FfsLayout {
  import opened Bytes

  const BLOCK_SIZE: nat := 4096
  const PAGE_SIZE: nat := 64
  const DATA_PAGES: nat := 51
  const SLOTS: nat := 59
  const META_SIZE: nat := 8
  const HEADER_SIZE: nat := META_SIZE + SLOTS
  const RECORD_SIZE: nat := 67

  const FLAGS_FREE: byte := 255
  const FLAGS_VALID: byte := 191
  const FLAGS_INVALID: byte := 0

  type u16 = x: int | 0 <= x < 65536
  type Checksum = seq<byte> -> u16

  /** A page as the page layer passes it around: a length and a full 64-byte buffer. */
  datatype Rec = Rec(len: nat, data: seq<byte>) {
    predicate Ok() { 0 < len <= PAGE_SIZE && |data| == PAGE_SIZE }
    function Bytes(): seq<byte> requires Ok() { data[..len] }
  }

  /** One page write: `rec` became the newest copy of logical page `page` of the block. */
  datatype Entry = Entry(page: nat, rec: Rec) {
    predicate Ok() { page < DATA_PAGES && rec.Ok() }
  }

  predicate LogOk(log: seq<Entry>) {
    |log| <= SLOTS && forall i :: 0 <= i < |log| ==> log[i].Ok()
  }

  // ---- addresses inside a block ----

  function IndexOffset(copy: nat, slot: nat): nat { HEADER_SIZE * copy + META_SIZE + slot }

  function PageOffset(slot: nat): nat { 2 * HEADER_SIZE + RECORD_SIZE * slot }

  function IndexAt(img: seq<byte>, copy: nat, slot: nat): byte
    requires |img| == BLOCK_SIZE && copy < 2 && slot < SLOTS
  {
    img[IndexOffset(copy, slot)]
  }

  function MetaBytes(img: seq<byte>, copy: nat): seq<byte>
    requires |img| == BLOCK_SIZE && copy < 2
  {
    img[HEADER_SIZE * copy..HEADER_SIZE * copy + META_SIZE]
  }

  function PageBytes(img: seq<byte>, slot: nat): seq<byte>
    requires |img| == BLOCK_SIZE && slot < SLOTS
  {
    img[PageOffset(slot)..PageOffset(slot) + RECORD_SIZE]
  }

  // ---- records ----

  function EncodeRec(crc: Checksum, rec: Rec): (r: seq<byte>)
    requires rec.Ok()
    ensures |r| == RECORD_SIZE
  {
    var c := crc(rec.Bytes());
    [rec.len] + rec.data + [c % 256, c / 256]
  }

  /** What a read of 67 bytes yields: the page, and whether its stored checksum matches. */
  function DecodeRec(raw: seq<byte>): Rec
    requires |raw| == RECORD_SIZE
  {
    Rec(raw[0], raw[1..65])
  }

  predicate ChecksumMatches(crc: Checksum, raw: seq<byte>)
    requires |raw| == RECORD_SIZE && raw[0] <= PAGE_SIZE
  {
    var low: int, high: int := raw[65], raw[66];
    crc(raw[1..65][..raw[0]]) == low + 256 * high
  }

  lemma DecodeEncode(crc: Checksum, rec: Rec)
    requires rec.Ok()
    ensures DecodeRec(EncodeRec(crc, rec)) == rec
    ensures ChecksumMatches(crc, EncodeRec(crc, rec))
  {
    var raw := EncodeRec(crc, rec);
    assert raw[1..65] == rec.data;
  }

  // ---- images ----

  function MetaOf(file: byte, flags: byte, block: byte, sequence: byte): seq<byte> {
    [file, flags, block, sequence, 255, 255, 255, 255]
  }

  /** The sequence number counts copies of a block and wraps at 8 bits. */
  function NextSequence(n: byte): byte { if n == 255 then 0 else n + 1 }

  function Bumped(meta: seq<byte>): seq<byte>
    requires |meta| == META_SIZE
  {
    meta[3 := NextSequence(meta[3])]
  }

  lemma BumpedMeta(file: byte, flags: byte, block: byte, sequence: byte)
    ensures Bumped(MetaOf(file, flags, block, sequence)) == MetaOf(file, flags, block, NextSequence(sequence))
  {
  }

  /** The sequence number of a block and of its copy. */
  predicate Counts(was: seq<byte>, now: seq<byte>) {
    |was| == |now| == 4096 && now[3] as int == (was[3] as int + 1) % 256
  }

  /** Index and page slots hold exactly the log; every slot past its end is still erased. */
  predicate BodyHolds(crc: Checksum, img: seq<byte>, log: seq<Entry>) {
    && |img| == BLOCK_SIZE
    && LogOk(log)
    && (forall c, i :: 0 <= c < 2 && 0 <= i < SLOTS ==>
          IndexAt(img, c, i) == if i < |log| then log[i].page else 255)
    && (forall i :: 0 <= i < |log| ==> PageBytes(img, i) == EncodeRec(crc, log[i].rec))
    && (forall i :: |log| <= i < SLOTS ==> Erased(PageBytes(img, i)))
  }

  predicate MetaHolds(img: seq<byte>, meta: seq<byte>) {
    && |img| == BLOCK_SIZE
    && MetaBytes(img, 0) == meta
    && MetaBytes(img, 1) == meta
  }

  /** A block in use as block `k` of file `f`, storing `log`. */
  predicate FileImage(crc: Checksum, img: seq<byte>, f: byte, k: byte, log: seq<Entry>) {
    && BodyHolds(crc, img, log)
    && MetaHolds(img, MetaOf(f, FLAGS_VALID, k, img[3]))
  }

  predicate FreeImage(img: seq<byte>) {
    |img| == BLOCK_SIZE && Erased(img)
  }

  /** Both flag bytes agree and have the dirty bit (0x80) cleared. */
  predicate DirtyImage(img: seq<byte>) {
    |img| == BLOCK_SIZE && img[1] == img[HEADER_SIZE + 1] && img[1] < 128
  }

  lemma MetaFields(img: seq<byte>, meta: seq<byte>)
    requires MetaHolds(img, meta)
    ensures |meta| == META_SIZE
    ensures forall i :: 0 <= i < META_SIZE ==> img[i] == meta[i] && img[HEADER_SIZE + i] == meta[i]
  {
    forall i | 0 <= i < META_SIZE
      ensures img[i] == meta[i] && img[HEADER_SIZE + i] == meta[i]
    {
      assert MetaBytes(img, 0)[i] == img[i] && MetaBytes(img, 1)[i] == img[HEADER_SIZE + i];
    }
  }

  // ---- programming steps ----

  function WithMeta(img: seq<byte>, meta: seq<byte>): (r: seq<byte>)
    requires |img| == BLOCK_SIZE && |meta| == META_SIZE
    ensures |r| == BLOCK_SIZE
  {
    Program(Program(img, 0, meta), HEADER_SIZE, meta)
  }

  function WithIndex(img: seq<byte>, page: byte, slot: nat): (r: seq<byte>)
    requires |img| == BLOCK_SIZE && slot < SLOTS
    ensures |r| == BLOCK_SIZE
  {
    Program(Program(img, IndexOffset(0, slot), [page]), IndexOffset(1, slot), [page])
  }

  function WithPage(crc: Checksum, img: seq<byte>, slot: nat, rec: Rec): (r: seq<byte>)
    requires |img| == BLOCK_SIZE && slot < SLOTS && rec.Ok()
    ensures |r| == BLOCK_SIZE
  {
    Program(img, PageOffset(slot), EncodeRec(crc, rec))
  }

  function WithFlags(img: seq<byte>, flags: byte): (r: seq<byte>)
    requires |img| == BLOCK_SIZE
    ensures |r| == BLOCK_SIZE
  {
    Program(Program(img, 1, [flags]), HEADER_SIZE + 1, [flags])
  }

  lemma FreeHoldsNothing(crc: Checksum, img: seq<byte>)
    requires FreeImage(img)
    ensures BodyHolds(crc, img, [])
    ensures MetaHolds(img, MetaOf(255, 255, 255, 255))
  {
  }

  /** The index entry of the next free slot, read back from both copies, is what was written. */
  lemma IndexStored(crc: Checksum, img: seq<byte>, log: seq<Entry>, page: byte)
    requires BodyHolds(crc, img, log) && |log| < SLOTS
    ensures var r := WithIndex(img, page, |log|);
            && IndexAt(r, 0, |log|) == page && IndexAt(r, 1, |log|) == page
            && (forall c, i :: 0 <= c < 2 && 0 <= i < SLOTS && i != |log| ==> IndexAt(r, c, i) == IndexAt(img, c, i))
            && (forall i :: 0 <= i < SLOTS ==> PageBytes(r, i) == PageBytes(img, i))
            && MetaBytes(r, 0) == MetaBytes(img, 0) && MetaBytes(r, 1) == MetaBytes(img, 1)
  {
    var s := |log|;
    assert IndexAt(img, 0, s) == 255 && IndexAt(img, 1, s) == 255;
    IndexHalf(img, 0, s, page);
    IndexHalf(Program(img, IndexOffset(0, s), [page]), 1, s, page);
    hide Program, BodyHolds;
  }

  /** Writing one copy of an unused index entry stores it and touches nothing else. */
  lemma IndexHalf(img: seq<byte>, c: nat, s: nat, page: byte)
    requires |img| == BLOCK_SIZE && c < 2 && s < SLOTS && IndexAt(img, c, s) == 255
    ensures var r := Program(img, IndexOffset(c, s), [page]);
            && IndexAt(r, c, s) == page
            && (forall e, i :: 0 <= e < 2 && 0 <= i < SLOTS && (e != c || i != s) ==>
                  IndexAt(r, e, i) == IndexAt(img, e, i))
            && (forall i :: 0 <= i < SLOTS ==> PageBytes(r, i) == PageBytes(img, i))
            && MetaBytes(r, 0) == MetaBytes(img, 0) && MetaBytes(r, 1) == MetaBytes(img, 1)
  {
    AndErased(page);
    hide And;
    var off := IndexOffset(c, s);
    forall i | 0 <= i < SLOTS
      ensures PageBytes(Program(img, off, [page]), i) == PageBytes(img, i)
    {
      ProgramFrame(img, off, [page], PageOffset(i), PageOffset(i) + RECORD_SIZE);
    }
    ProgramFrame(img, off, [page], 0, META_SIZE);
    ProgramFrame(img, off, [page], HEADER_SIZE, HEADER_SIZE + META_SIZE);
  }

  /** Index entry first, then the page: the block stores one more log entry. */
  lemma AppendStored(crc: Checksum, img: seq<byte>, log: seq<Entry>, e: Entry)
    requires BodyHolds(crc, img, log) && |log| < SLOTS && e.Ok()
    ensures var r := WithPage(crc, WithIndex(img, e.page, |log|), |log|, e.rec);
            && BodyHolds(crc, r, log + [e])
            && PageBytes(r, |log|) == EncodeRec(crc, e.rec)
            && MetaBytes(r, 0) == MetaBytes(img, 0) && MetaBytes(r, 1) == MetaBytes(img, 1)
    ensures Erased(PageBytes(WithIndex(img, e.page, |log|), |log|))
  {
    IndexStored(crc, img, log, e.page);
    PageStored(crc, WithIndex(img, e.page, |log|), |log|, e.rec);
    hide WithIndex, WithPage, IndexAt, PageBytes, MetaBytes, EncodeRec, Erased;
  }

  /** Writing a page into an erased slot stores it and touches nothing else. */
  lemma PageStored(crc: Checksum, img: seq<byte>, s: nat, rec: Rec)
    requires |img| == BLOCK_SIZE && s < SLOTS && rec.Ok() && Erased(PageBytes(img, s))
    ensures var r := WithPage(crc, img, s, rec);
            && PageBytes(r, s) == EncodeRec(crc, rec)
            && (forall i :: 0 <= i < SLOTS && i != s ==> PageBytes(r, i) == PageBytes(img, i))
            && (forall c, i :: 0 <= c < 2 && 0 <= i < SLOTS ==> IndexAt(r, c, i) == IndexAt(img, c, i))
            && MetaBytes(r, 0) == MetaBytes(img, 0) && MetaBytes(r, 1) == MetaBytes(img, 1)
  {
    var d := EncodeRec(crc, rec);
    var r := WithPage(crc, img, s, rec);
    ProgramErased(img, PageOffset(s), d);
    forall i | 0 <= i < SLOTS && i != s
      ensures PageBytes(r, i) == PageBytes(img, i)
    {
      ProgramFrame(img, PageOffset(s), d, PageOffset(i), PageOffset(i) + RECORD_SIZE);
    }
    ProgramFrame(img, PageOffset(s), d, 0, META_SIZE);
    ProgramFrame(img, PageOffset(s), d, HEADER_SIZE, HEADER_SIZE + META_SIZE);
  }

  /** Writing one meta copy over an erased one stores it and touches nothing else. */
  lemma MetaHalf(img: seq<byte>, c: nat, meta: seq<byte>)
    requires |img| == BLOCK_SIZE && c < 2 && |meta| == META_SIZE && Erased(MetaBytes(img, c))
    ensures var r := Program(img, HEADER_SIZE * c, meta);
            && MetaBytes(r, c) == meta && MetaBytes(r, 1 - c) == MetaBytes(img, 1 - c)
            && (forall i :: 0 <= i < SLOTS ==> PageBytes(r, i) == PageBytes(img, i))
            && (forall e, i :: 0 <= e < 2 && 0 <= i < SLOTS ==> IndexAt(r, e, i) == IndexAt(img, e, i))
  {
    var off := HEADER_SIZE * c;
    ProgramErased(img, off, meta);
    ProgramFrame(img, off, meta, HEADER_SIZE * (1 - c), HEADER_SIZE * (1 - c) + META_SIZE);
    forall i | 0 <= i < SLOTS
      ensures PageBytes(Program(img, off, meta), i) == PageBytes(img, i)
    {
      ProgramFrame(img, off, meta, PageOffset(i), PageOffset(i) + RECORD_SIZE);
    }
  }

  /** Writing both meta copies of a block whose meta is erased stores them and touches nothing else. */
  lemma MetaStored(crc: Checksum, img: seq<byte>, log: seq<Entry>, meta: seq<byte>)
    requires BodyHolds(crc, img, log)
    requires MetaHolds(img, MetaOf(255, 255, 255, 255)) && |meta| == META_SIZE
    ensures BodyHolds(crc, WithMeta(img, meta), log)
    ensures MetaHolds(WithMeta(img, meta), meta)
  {
    hide Program, PageBytes, IndexAt, MetaBytes;
    MetaHalf(img, 0, meta);
    MetaHalf(Program(img, 0, meta), 1, meta);
  }

  /** A block whose meta is erased becomes block k of file f, with the log it already stores, once its meta is
      written. */
  lemma SealBlock(crc: Checksum, img: seq<byte>, log: seq<Entry>, f: byte, k: byte, sequence: byte)
    requires BodyHolds(crc, img, log) && MetaHolds(img, MetaOf(255, 255, 255, 255))
    ensures FileImage(crc, WithMeta(img, MetaOf(f, FLAGS_VALID, k, sequence)), f, k, log)
    ensures var r := WithMeta(img, MetaOf(f, FLAGS_VALID, k, sequence));
            MetaBytes(r, 0) == MetaBytes(r, 1) && r[0] == f && r[2] == k && r[3] == sequence
  {
    var meta := MetaOf(f, FLAGS_VALID, k, sequence);
    MetaStored(crc, img, log, meta);
    MetaFields(WithMeta(img, meta), meta);
  }

  lemma AppendFile(crc: Checksum, img: seq<byte>, f: byte, k: byte, log: seq<Entry>, e: Entry)
    requires FileImage(crc, img, f, k, log) && |log| < SLOTS && e.Ok()
    ensures var r := WithPage(crc, WithIndex(img, e.page, |log|), |log|, e.rec);
            && FileImage(crc, r, f, k, log + [e])
            && PageBytes(r, |log|) == EncodeRec(crc, e.rec)
    ensures Erased(PageBytes(WithIndex(img, e.page, |log|), |log|))
  {
    AppendStored(crc, img, log, e);
    var r := WithPage(crc, WithIndex(img, e.page, |log|), |log|, e.rec);
    assert MetaBytes(img, 0)[3] == img[3] && MetaBytes(r, 0)[3] == r[3];
  }

  /** What a read of the flags says: the flag byte if both copies agree, otherwise "invalid". */
  function FlagsOf(img: seq<byte>): byte
    requires |img| == BLOCK_SIZE
  {
    if img[1] == img[HEADER_SIZE + 1] then img[1] else FLAGS_INVALID
  }

  lemma ClearTop(img: seq<byte>, copy: nat)
    requires |img| == BLOCK_SIZE && copy < 2
    ensures var v := FlagsOf(img) % 128;
            And(img[HEADER_SIZE * copy + 1], v) == v
  {
    AndLow7(img[HEADER_SIZE * copy + 1]);
  }

  /** Clearing the dirty bit is a legal program (bits only fall) whatever the flags are, and both copies take it. */
  lemma FlagsStored(img: seq<byte>)
    requires |img| == BLOCK_SIZE
    ensures var v := FlagsOf(img) % 128;
            && DirtyImage(WithFlags(img, v)) && WithFlags(img, v)[1] == v
            && And(img[1], v) == v && And(Program(img, 1, [v])[HEADER_SIZE + 1], v) == v
  {
    hide Program, And, FlagsOf;
    var v := FlagsOf(img) % 128;
    ClearTop(img, 0);
    ClearTop(img, 1);
    ProgramByte(img, 1, v);
    ProgramByte(Program(img, 1, [v]), HEADER_SIZE + 1, v);
  }

  lemma ProgramByte(img: seq<byte>, off: nat, v: byte)
    requires off < |img|
    ensures var r := Program(img, off, [v]);
            r[off] == And(img[off], v) && forall i :: 0 <= i < |img| && i != off ==> r[i] == img[i]
  {
  }

  /** What stands where in a block of a file: both copies of its header, and the page in each used slot. */
  lemma FileBytes(crc: Checksum, img: seq<byte>, f: byte, k: byte, log: seq<Entry>, i: nat)
    requires FileImage(crc, img, f, k, log) && i < 59
    ensures |img| == 4096 && img[0] == img[67] == f && img[1] == img[68] == 0xbf && img[2] == img[69] == k
    ensures img[3] == img[70]
    ensures img[8 + i] == img[75 + i] == if i < |log| then log[i].page else 255
    ensures i < |log| ==>
              var at := 134 + 67 * i;
              && img[at] == log[i].rec.len <= 64 && img[at + 1..at + 65] == log[i].rec.data
              && img[at + 65] as int + 256 * img[at + 66] as int == crc(img[at + 1..at + 1 + log[i].rec.len])
  {
    MetaFields(img, MetaOf(f, FLAGS_VALID, k, img[3]));
    assert IndexAt(img, 0, i) == img[8 + i] && IndexAt(img, 1, i) == img[75 + i];
    if i < |log| {
      assert log[i].Ok();
      RecordBytes(crc, img, i, log[i].rec);
    }
  }

  lemma RecordBytes(crc: Checksum, img: seq<byte>, i: nat, rec: Rec)
    requires |img| == BLOCK_SIZE && i < SLOTS && rec.Ok() && PageBytes(img, i) == EncodeRec(crc, rec)
    ensures var at := 134 + 67 * i;
            && img[at] == rec.len <= 64 && img[at + 1..at + 65] == rec.data
            && img[at + 65] as int + 256 * img[at + 66] as int == crc(img[at + 1..at + 1 + rec.len])
  {
    var at := 134 + 67 * i;
    var raw := img[at..at + 67];
    assert raw[0] == img[at] && raw[65] == img[at + 65] && raw[66] == img[at + 66];
    SliceSlice(img, at, at + 67, 1, 65);
    assert raw[1..65] == rec.data;
    SliceSlice(img, at + 1, at + 65, 0, rec.len);
  }

  /** The regions of a block: the two headers and the 59 slots are pairwise disjoint and fit in the block. */
  lemma RegionsDisjoint(c: nat, i: nat, d: nat, j: nat)
    requires c < 2 && d < 2 && i < SLOTS && j < SLOTS
    ensures HEADER_SIZE * c + META_SIZE <= IndexOffset(c, i) < HEADER_SIZE * (c + 1) <= PageOffset(j)
    ensures IndexOffset(c, i) == IndexOffset(d, j) ==> c == d && i == j
    ensures i < j ==> PageOffset(i) + RECORD_SIZE <= PageOffset(j)
    ensures PageOffset(j) + RECORD_SIZE <= BLOCK_SIZE
  {
  }
}
