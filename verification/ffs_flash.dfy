/** The flash chip: the image of each block, and a journal of what was programmed since the block was last erased. */
module FfsFlash {
  import opened Bytes
  import opened FfsLayout

  /** What one program covers. The flag byte lies inside the meta header; all other regions are disjoint. */
  datatype Region = Meta(copy: nat) | Index(copy: nat, slot: nat) | Page(slot: nat) | Flags(copy: nat) {
    predicate Ok() {
      match this
      case Meta(copy) => copy < 2
      case Index(copy, slot) => copy < 2 && slot < SLOTS
      case Page(slot) => slot < SLOTS
      case Flags(copy) => copy < 2
    }

    function Size(): nat {
      match this
      case Meta(_) => META_SIZE
      case Index(_, _) => 1
      case Page(_) => RECORD_SIZE
      case Flags(_) => 1
    }

    function Start(): (r: nat)
      requires Ok()
      ensures r + Size() <= BLOCK_SIZE
    {
      match this
      case Meta(copy) => HEADER_SIZE * copy
      case Index(copy, slot) => IndexOffset(copy, slot)
      case Page(slot) => PageOffset(slot)
      case Flags(copy) => HEADER_SIZE * copy + 1
    }

    /** The bytes of the region. */
    function Of(img: seq<byte>): (r: seq<byte>)
      requires Ok() && |img| == BLOCK_SIZE
      ensures |r| == Size()
    {
      img[Start()..Start() + Size()]
    }
  }

  datatype Write = Write(region: Region, data: seq<byte>) {
    predicate Ok() { region.Ok() && |data| == region.Size() && !Erased(data) }
  }

  function Blank(): seq<byte> { seq(BLOCK_SIZE, i => 255) }

  /** What one program does to an image. */
  function Applied(img: seq<byte>, w: Write): (r: seq<byte>)
    requires w.Ok() && |img| == BLOCK_SIZE
    ensures |r| == BLOCK_SIZE
  {
    Program(img, w.region.Start(), w.data)
  }

  /** The image that erasing and then programming leaves. */
  function Replay(journal: seq<Write>): (img: seq<byte>)
    requires forall i :: 0 <= i < |journal| ==> journal[i].Ok()
    ensures |img| == BLOCK_SIZE
  {
    if journal == [] then Blank() else Applied(Replay(journal[..|journal| - 1]), journal[|journal| - 1])
  }

  /** Only flag bytes are programmed more than once. Programming can only clear bits, and no program asks for more: each
      leaves exactly its data. */
  predicate Legal(journal: seq<Write>) {
    && (forall i :: 0 <= i < |journal| ==> journal[i].Ok())
    && (journal == [] ||
        var k := |journal| - 1;
        var w := journal[k];
        && Legal(journal[..k])
        && (w.region.Flags? || forall i :: 0 <= i < k ==> journal[i].region != w.region)
        && w.region.Of(Replay(journal)) == w.data)
  }

  /** `journal` is a legal history of the block since its last erase, and `img` what it led to. */
  predicate History(img: seq<byte>, journal: seq<Write>) {
    Legal(journal) && img == Replay(journal)
  }

  /** No program makes a programmed region look erased again. */
  lemma StaysProgrammed(img: seq<byte>, off: nat, d: seq<byte>, a: nat, b: nat)
    requires off + |d| <= |img| && a <= b <= |img| && !Erased(img[a..b])
    ensures !Erased(Program(img, off, d)[a..b])
  {
    var i :| 0 <= i < b - a && img[a..b][i] != 255;
    assert Program(img, off, d)[a..b][i] <= img[a + i] < 255;
  }

  lemma KeepsProgrammed(img: seq<byte>, w: Write, r: Region)
    requires w.Ok() && |img| == BLOCK_SIZE && r.Ok() && !Erased(r.Of(img))
    ensures !Erased(r.Of(Applied(img, w)))
  {
    StaysProgrammed(img, w.region.Start(), w.data, r.Start(), r.Start() + r.Size());
  }

  /** A region that is in the journal is not erased. */
  lemma {:induction false} Remembered(journal: seq<Write>, i: nat)
    requires Legal(journal) && i < |journal|
    ensures !Erased(journal[i].region.Of(Replay(journal)))
  {
    hide Applied, Erased, Region.Of;
    var k := |journal| - 1;
    if i < k {
      Remembered(journal[..k], i);
      KeepsProgrammed(Replay(journal[..k]), journal[k], journal[i].region);
    }
  }

  /** Programming an erased region, or clearing flag bits, extends a legal history. */
  lemma HistoryGrows(img: seq<byte>, journal: seq<Write>, w: Write)
    requires History(img, journal) && w.Ok()
    requires w.region.Flags? || Erased(w.region.Of(img))
    requires w.region.Of(Applied(img, w)) == w.data
    ensures History(Applied(img, w), journal + [w])
  {
    hide Applied, Erased, Region.Of;
    var more := journal + [w];
    assert more[..|journal|] == journal;
    forall i | 0 <= i < |journal|
      ensures w.region.Flags? || journal[i].region != w.region
    {
      Remembered(journal, i);
    }
  }

  lemma {:induction false} LegalPrefix(journal: seq<Write>, j: nat)
    requires Legal(journal) && j <= |journal|
    ensures Legal(journal[..j])
  {
    if j < |journal| {
      LegalPrefix(journal[..|journal| - 1], j);
      assert journal[..|journal| - 1][..j] == journal[..j];
    } else {
      assert journal[..j] == journal;
    }
  }

  /** A program that leaves its data found every bit it wants set. */
  lemma OnlyClears(img: seq<byte>, w: Write, i: nat)
    requires w.Ok() && |img| == BLOCK_SIZE && w.region.Of(Applied(img, w)) == w.data && i < |w.data|
    ensures And(w.region.Of(img)[i], w.data[i]) == w.data[i]
  {
    var r := w.region;
    var start, size := r.Start(), r.Size();
    var after := Program(img, start, w.data);
    assert after[start..start + size][i] == after[start + i];
    assert img[start..start + size][i] == img[start + i];
  }

  lemma LastProgram(journal: seq<Write>)
    requires Legal(journal) && journal != []
    ensures var k := |journal| - 1;
            var w, before := journal[k], Replay(journal[..k]);
            && w.region.Of(Replay(journal)) == w.data
            && (forall i :: 0 <= i < k && journal[i].region == w.region ==> w.region.Flags?)
            && forall i :: 0 <= i < w.region.Size() ==> And(w.region.Of(before)[i], w.data[i]) == w.data[i]
  {
    hide Applied, Erased, Region.Of, And, Program;
    var k := |journal| - 1;
    forall i | 0 <= i < journal[k].region.Size()
      ensures And(journal[k].region.Of(Replay(journal[..k]))[i], journal[k].data[i]) == journal[k].data[i]
    {
      OnlyClears(Replay(journal[..k]), journal[k], i);
    }
  }

  /** Of two programs in a legal history, the later one is of a flag byte or of another region, and leaves its data. */
  lemma TwoPrograms(journal: seq<Write>, i: nat, j: nat)
    requires Legal(journal) && i < j < |journal|
    ensures journal[i].region == journal[j].region ==> journal[i].region.Flags?
    ensures Legal(journal[..j]) && Legal(journal[..j + 1])
    ensures var w, before, after := journal[j], Replay(journal[..j]), Replay(journal[..j + 1]);
            && w.region.Of(after) == w.data
            && forall k :: 0 <= k < w.region.Size() ==> And(w.region.Of(before)[k], w.data[k]) == w.data[k]
  {
    hide Applied, Erased, Region.Of, And, Replay, Program;
    LegalPrefix(journal, j);
    LegalPrefix(journal, j + 1);
    assert journal[..j + 1][..j] == journal[..j];
    LastProgram(journal[..j + 1]);
  }

  /** The regions a program of `r` may touch: `r` itself, and the flag byte and meta header that contain one another. */
  predicate Touches(r: Region, s: Region) {
    r == s || ((r.Flags? || s.Flags?) && (r.Meta? || s.Meta?) && r.copy == s.copy)
  }

  /** Different regions do not overlap, except a flag byte and the meta header it belongs to. */
  lemma RegionsApart(r: Region, s: Region)
    requires r.Ok() && s.Ok() && !Touches(r, s)
    ensures r.Start() + r.Size() <= s.Start() || s.Start() + s.Size() <= r.Start()
  {
  }

  ghost predicate OthersKept(was: seq<byte>, now: seq<byte>, r: Region)
    requires |was| == |now| == BLOCK_SIZE
  {
    forall s: Region :: s.Ok() && !Touches(r, s) ==> s.Of(now) == s.Of(was)
  }

  lemma Kept(img: seq<byte>, w: Write)
    requires w.Ok() && |img| == BLOCK_SIZE
    ensures OthersKept(img, Applied(img, w), w.region)
  {
    forall s: Region | s.Ok() && !Touches(w.region, s)
      ensures s.Of(Applied(img, w)) == s.Of(img)
    {
      RegionsApart(w.region, s);
      ProgramFrame(img, w.region.Start(), w.data, s.Start(), s.Start() + s.Size());
    }
  }

  lemma PutKeeps(img: seq<byte>, journal: seq<Write>, w: Write)
    requires History(img, journal) && w.Ok()
    requires if w.region.Flags? then And(img[w.region.Start()], w.data[0]) == w.data[0] else Erased(w.region.Of(img))
    ensures History(Applied(img, w), journal + [w])
    ensures w.region.Of(Applied(img, w)) == w.data && OthersKept(img, Applied(img, w), w.region)
  {
    if w.region.Flags? {
      ProgramByte(img, w.region.Start(), w.data[0]);
    } else {
      ProgramErased(img, w.region.Start(), w.data);
    }
    assert w.region.Of(Applied(img, w)) == w.data;
    HistoryGrows(img, journal, w);
    Kept(img, w);
  }

  class Flash {
    var img: seq<seq<byte>>
    ghost var journal: seq<seq<Write>>

    ghost predicate Valid()
      reads this
    {
      && |journal| == |img|
      && (forall b :: 0 <= b < |img| ==> |img[b]| == BLOCK_SIZE)
      && (forall b {:trigger History(img[b], journal[b])} :: 0 <= b < |img| ==> History(img[b], journal[b]))
    }

    /** A freshly erased chip. */
    constructor (n: nat)
      ensures Valid() && |img| == n
      ensures forall b :: 0 <= b < n ==> FreeImage(img[b])
    {
      img := seq(n, b => Blank());
      journal := seq(n, b => []);
    }

    /** Program a region that is still erased, or clear bits of a flag byte. */
    method Put(b: nat, region: Region, data: seq<byte>)
      requires Valid() && b < |img| && Write(region, data).Ok()
      requires if region.Flags? then And(img[b][region.Start()], data[0]) == data[0] else Erased(region.Of(img[b]))
      modifies this
      ensures Valid() && img == old(img)[b := Program(old(img[b]), region.Start(), data)]
      ensures journal == old(journal)[b := old(journal[b]) + [Write(region, data)]]
      ensures region.Of(img[b]) == data && OthersKept(old(img[b]), img[b], region)
    {
      assert History(img[b], journal[b]);
      PutKeeps(img[b], journal[b], Write(region, data));
      hide History, Erased, And, OthersKept, Region.Of, Program;
      img := img[b := Program(img[b], region.Start(), data)];
      journal := journal[b := journal[b] + [Write(region, data)]];
    }

    /** Erase a whole block. */
    method EraseBlock(b: nat)
      requires Valid() && b < |img|
      modifies this
      ensures Valid() && |img| == old(|img|) && FreeImage(img[b]) && img == old(img)[b := img[b]]
      ensures journal == old(journal)[b := []]
    {
      img := img[b := Blank()];
      journal := journal[b := []];
    }

    /** Between two erases of a block each meta header, index entry and page slot is programmed at most once; flag bytes
        are the only ones programmed again; and every program finds set all bits it wants set, so it leaves its data. */
    lemma ProgrammedOnce(b: nat, i: nat, j: nat)
      requires Valid() && b < |img| && i < j < |journal[b]|
      ensures Legal(journal[b]) && img[b] == Replay(journal[b])
      ensures journal[b][i].region == journal[b][j].region ==> journal[b][i].region.Flags?
      ensures Legal(journal[b][..j]) && Legal(journal[b][..j + 1])
      ensures var w, before, after := journal[b][j], Replay(journal[b][..j]), Replay(journal[b][..j + 1]);
              && w.region.Of(after) == w.data
              && forall k :: 0 <= k < w.region.Size() ==> And(w.region.Of(before)[k], w.data[k]) == w.data[k]
    {
      assert History(img[b], journal[b]);
      TwoPrograms(journal[b], i, j);
      hide Legal, Replay, Applied, Erased, Region.Of, And;
    }
  }
}
