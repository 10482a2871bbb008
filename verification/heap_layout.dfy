/** The bytes of the handle heap: a row of blocks, each a 4-byte header, its data and a canary. */
module HeapLayout {
  import opened Bytes

  const HEAP_SIZE: nat := 8192
  const MAX_HANDLES: nat := 256
  const HEADER: nat := 4
  const OVERHEAD: nat := 5
  const DIRTY_MASK: nat := 0x8000
  const CANARY: byte := 0x47
  const DEFRAG_THRESHOLD: nat := 1024

  /** One block; `handle` is the handle index stored in its header. */
  datatype Block = Block(handle: nat, data: seq<byte>, dirty: bool) {
    predicate Ok() { handle < MAX_HANDLES && |data| < DIRTY_MASK }
    function Size(): nat { |data| + OVERHEAD }
  }

  predicate BlocksOk(blocks: seq<Block>) {
    forall i :: 0 <= i < |blocks| ==> blocks[i].Ok()
  }

  /** Size and dirty flag share the first two bytes, little-endian; the handle takes the next two. */
  function Encode(b: Block): (r: seq<byte>)
    requires b.Ok()
    ensures |r| == b.Size()
  {
    [|b.data| % 256, |b.data| / 256 + (if b.dirty then 128 else 0), b.handle % 256, b.handle / 256] + b.data + [CANARY]
  }

  function EncodeAll(blocks: seq<Block>): seq<byte>
    requires BlocksOk(blocks)
  {
    if blocks == [] then [] else EncodeAll(blocks[..|blocks| - 1]) + Encode(blocks[|blocks| - 1])
  }

  function Offset(blocks: seq<Block>, i: nat): nat
    requires BlocksOk(blocks) && i <= |blocks|
  {
    |EncodeAll(blocks[..i])|
  }

  // ---- reading headers ----

  function SizeField(heap: seq<byte>, p: nat): nat
    requires p + 1 < |heap|
  {
    var lo: int, hi: int := heap[p], heap[p + 1];
    lo + 256 * hi
  }

  predicate IsDirty(heap: seq<byte>, p: nat)
    requires p + 1 < |heap|
  {
    SizeField(heap, p) >= DIRTY_MASK
  }

  function BlockSize(heap: seq<byte>, p: nat): nat
    requires p + 1 < |heap|
  {
    HEADER + SizeField(heap, p) % DIRTY_MASK + 1
  }

  function HandleField(heap: seq<byte>, p: nat): nat
    requires p + 3 < |heap|
  {
    var lo: int, hi: int := heap[p + 2], heap[p + 3];
    lo + 256 * hi
  }

  lemma HeaderOf(b: Block, heap: seq<byte>, p: nat)
    requires b.Ok() && p + b.Size() <= |heap| && heap[p..p + b.Size()] == Encode(b)
    ensures IsDirty(heap, p) == b.dirty && BlockSize(heap, p) == b.Size() && HandleField(heap, p) == b.handle
    ensures heap[p + HEADER..p + HEADER + |b.data|] == b.data
    ensures heap[p + b.Size() - 1] == CANARY
  {
    var e := Encode(b);
    assert heap[p] == e[0] && heap[p + 1] == e[1] && heap[p + 2] == e[2] && heap[p + 3] == e[3];
    assert e[b.Size() - 1] == CANARY;
    assert heap[p + b.Size() - 1] == heap[p..p + b.Size()][b.Size() - 1];
    SliceSlice(heap, p, p + b.Size(), HEADER, HEADER + |b.data|);
    assert e[HEADER..HEADER + |b.data|] == b.data;
  }

  /** The bytes of a block: size and dirty flag, handle, data, canary. */
  lemma BlockInNumbers(b: Block)
    requires b.Ok()
    ensures var e := Encode(b);
            && |e| == |b.data| + 5 && e[0] as int + 256 * (e[1] as int % 128) == |b.data| && (e[1] >= 128 <==> b.dirty)
            && e[2] as int + 256 * e[3] as int == b.handle && e[4..4 + |b.data|] == b.data && e[4 + |b.data|] == 0x47
  {
  }

  // ---- rows of blocks ----

  lemma {:induction false} EncodeAppend(a: seq<Block>, b: seq<Block>)
    requires BlocksOk(a) && BlocksOk(b)
    ensures BlocksOk(a + b) && EncodeAll(a + b) == EncodeAll(a) + EncodeAll(b)
  {
    hide Encode;
    if b == [] {
      assert a + b == a;
    } else {
      var init := b[..|b| - 1];
      EncodeAppend(a, init);
      InitOf(a, b);
      Assoc(EncodeAll(a), EncodeAll(init), Encode(b[|b| - 1]));
    }
  }

  lemma InitOf(a: seq<Block>, b: seq<Block>)
    requires b != []
    ensures (a + b)[..|a + b| - 1] == a + b[..|b| - 1] && (a + b)[|a + b| - 1] == b[|b| - 1]
  {
  }

  lemma Assoc(a: seq<byte>, b: seq<byte>, c: seq<byte>)
    ensures (a + b) + c == a + (b + c)
  {
  }

  /** The i-th block sits at its offset, and the next one right behind it. */
  lemma BlockAt(blocks: seq<Block>, i: nat)
    requires BlocksOk(blocks) && i < |blocks|
    ensures var p := Offset(blocks, i);
            && Offset(blocks, i + 1) == p + blocks[i].Size() <= |EncodeAll(blocks)|
            && EncodeAll(blocks)[p..p + blocks[i].Size()] == Encode(blocks[i])
            && EncodeAll(blocks)[..p] == EncodeAll(blocks[..i])
            && EncodeAll(blocks)[p + blocks[i].Size()..] == EncodeAll(blocks[i + 1..])
  {
    hide EncodeAll, Encode;
    var l, m, r := blocks[..i], [blocks[i]], blocks[i + 1..];
    Around(blocks, i);
    EncodeAppend(l + m, r);
    EncodeAppend(l, m);
    One(blocks[i]);
    ThreeParts(EncodeAll(blocks), EncodeAll(l), Encode(blocks[i]), EncodeAll(r));
  }

  lemma Around(blocks: seq<Block>, i: nat)
    requires i < |blocks|
    ensures blocks == blocks[..i] + [blocks[i]] + blocks[i + 1..] && blocks[..i + 1] == blocks[..i] + [blocks[i]]
  {
  }

  lemma ThreeParts(s: seq<byte>, l: seq<byte>, m: seq<byte>, r: seq<byte>)
    requires s == l + m + r
    ensures s[|l|..|l| + |m|] == m && s[..|l|] == l && s[|l| + |m|..] == r
  {
  }

  lemma BlockBytes(blocks: seq<Block>, i: nat)
    requires BlocksOk(blocks) && i < |blocks|
    ensures var p := Offset(blocks, i);
            p + blocks[i].Size() <= |EncodeAll(blocks)|
                && EncodeAll(blocks)[p..p + blocks[i].Size()] == Encode(blocks[i])
  {
    BlockAt(blocks, i);
  }

  lemma OffsetWithin(blocks: seq<Block>, i: nat)
    requires BlocksOk(blocks) && i <= |blocks|
    ensures Offset(blocks, i) <= |EncodeAll(blocks)|
    ensures Offset(blocks, |blocks|) == |EncodeAll(blocks)|
  {
    assert blocks == blocks[..i] + blocks[i..];
    EncodeAppend(blocks[..i], blocks[i..]);
    assert blocks[..|blocks|] == blocks;
  }

  /** Putting a block of the same size in place of another changes only that block's bytes. */
  lemma ReplaceAt(blocks: seq<Block>, i: nat, b: Block)
    requires BlocksOk(blocks) && i < |blocks| && b.Ok() && b.Size() == blocks[i].Size()
    ensures var p := Offset(blocks, i);
            && p + b.Size() <= |EncodeAll(blocks)|
            && BlocksOk(blocks[i := b])
            && EncodeAll(blocks[i := b]) == EncodeAll(blocks)[..p] + Encode(b) + EncodeAll(blocks)[p + b.Size()..]
  {
    hide EncodeAll, Encode;
    var r := blocks[i := b];
    assert r[..i] == blocks[..i] && r[i + 1..] == blocks[i + 1..];
    BlockAt(blocks, i);
    BlockAt(r, i);
    SplitAt(EncodeAll(r), Offset(blocks, i), Offset(blocks, i) + b.Size());
  }

  lemma SplitAt(s: seq<byte>, p: nat, q: nat)
    requires p <= q <= |s|
    ensures s == s[..p] + s[p..q] + s[q..]
  {
  }

  lemma ReplaceOffsets(blocks: seq<Block>, i: nat, b: Block)
    requires BlocksOk(blocks) && i < |blocks| && b.Ok() && b.Size() == blocks[i].Size()
    ensures BlocksOk(blocks[i := b])
    ensures forall j :: 0 <= j <= |blocks| ==> Offset(blocks[i := b], j) == Offset(blocks, j)
  {
    var r := blocks[i := b];
    forall j | 0 <= j <= |blocks|
      ensures Offset(r, j) == Offset(blocks, j)
    {
      SameSizes(blocks[..j], r[..j]);
    }
  }

  lemma {:induction false} SameSizes(a: seq<Block>, b: seq<Block>)
    requires BlocksOk(a) && BlocksOk(b) && |a| == |b|
    requires forall i :: 0 <= i < |a| ==> a[i].Size() == b[i].Size()
    ensures |EncodeAll(a)| == |EncodeAll(b)|
  {
    if a != [] {
      SameSizes(a[..|a| - 1], b[..|b| - 1]);
    }
  }

  // ---- live blocks ----

  /** The clean blocks, in order. */
  function Live(blocks: seq<Block>): seq<Block> {
    if blocks == [] then []
    else
      var last := blocks[|blocks| - 1];
      Live(blocks[..|blocks| - 1]) + (if last.dirty then [] else [last])
  }

  lemma {:induction false} LiveOk(blocks: seq<Block>)
    requires BlocksOk(blocks)
    ensures BlocksOk(Live(blocks))
    ensures |EncodeAll(Live(blocks))| <= |EncodeAll(blocks)|
    ensures forall i :: 0 <= i < |Live(blocks)| ==> !Live(blocks)[i].dirty
  {
    if blocks != [] {
      var init := blocks[..|blocks| - 1];
      LiveOk(init);
      if !blocks[|blocks| - 1].dirty {
        assert Live(blocks)[..|Live(blocks)| - 1] == Live(init);
      } else {
        assert Live(blocks) == Live(init);
      }
    }
  }

  /** Bytes of user data in the clean blocks. */
  function DataBytes(blocks: seq<Block>): nat {
    if blocks == [] then 0
    else DataBytes(blocks[..|blocks| - 1])
         + (if blocks[|blocks| - 1].dirty then 0 else |blocks[|blocks| - 1].data|)
  }

  /** Used space is user data plus five bytes per live block. */
  lemma {:induction false} UsedIsData(blocks: seq<Block>)
    requires BlocksOk(blocks)
    ensures BlocksOk(Live(blocks))
    ensures |EncodeAll(Live(blocks))| == DataBytes(blocks) + OVERHEAD * |Live(blocks)|
  {
    LiveOk(blocks);
    if blocks != [] {
      var init := blocks[..|blocks| - 1];
      UsedIsData(init);
      if !blocks[|blocks| - 1].dirty {
        assert Live(blocks)[..|Live(blocks)| - 1] == Live(init);
      } else {
        assert Live(blocks) == Live(init);
      }
    }
  }

  lemma {:induction false} LiveAppend(a: seq<Block>, b: seq<Block>)
    ensures Live(a + b) == Live(a) + Live(b)
    ensures DataBytes(a + b) == DataBytes(a) + DataBytes(b)
  {
    if b == [] {
      assert a + b == a;
    } else {
      LiveAppend(a, b[..|b| - 1]);
      assert (a + b)[..|a + b| - 1] == a + b[..|b| - 1];
    }
  }

  /** A row without dirty blocks is its own live part. */
  lemma {:induction false} LiveAll(blocks: seq<Block>)
    requires forall i :: 0 <= i < |blocks| ==> !blocks[i].dirty
    ensures Live(blocks) == blocks
  {
    if blocks != [] {
      var init, last := blocks[..|blocks| - 1], blocks[|blocks| - 1];
      LiveAll(init);
      assert blocks == init + [last];
    }
  }

  lemma One(b: Block)
    requires b.Ok()
    ensures Live([b]) == if b.dirty then [] else [b]
    ensures DataBytes([b]) == if b.dirty then 0 else |b.data|
    ensures EncodeAll([b]) == Encode(b)
  {
    assert [b][..0] == [];
  }

  /** Space taken by the clean blocks. */
  function LiveSize(blocks: seq<Block>): nat
    requires BlocksOk(blocks)
  {
    LiveOk(blocks);
    |EncodeAll(Live(blocks))|
  }

  lemma LiveSizeAppend(a: seq<Block>, b: seq<Block>)
    requires BlocksOk(a) && BlocksOk(b)
    ensures LiveSize(a + b) == LiveSize(a) + LiveSize(b)
  {
    LiveAppend(a, b);
    LiveOk(a);
    LiveOk(b);
    EncodeAppend(Live(a), Live(b));
  }

  lemma LiveSplit(l: seq<Block>, b: Block, t: seq<Block>)
    requires b.Ok()
    ensures Live(l + [b] + t) == Live(l) + (if b.dirty then [] else [b]) + Live(t)
    ensures DataBytes(l + [b] + t) == DataBytes(l) + (if b.dirty then 0 else |b.data|) + DataBytes(t)
  {
    One(b);
    LiveAppend(l, [b]);
    LiveAppend(l + [b], t);
  }

  lemma LiveSizeSplit(l: seq<Block>, b: Block, t: seq<Block>)
    requires BlocksOk(l) && b.Ok() && BlocksOk(t)
    ensures LiveSize(l + [b] + t) == LiveSize(l) + (if b.dirty then 0 else b.Size()) + LiveSize(t)
  {
    LiveSizeAppend(l, [b]);
    LiveSizeAppend(l + [b], t);
    LiveSizeOne(b);
  }

  lemma LiveSizeOne(b: Block)
    requires b.Ok()
    ensures LiveSize([b]) == if b.dirty then 0 else b.Size()
  {
    One(b);
  }

  /** What appending a live block adds. */
  lemma Appended(blocks: seq<Block>, b: Block)
    requires BlocksOk(blocks) && b.Ok() && !b.dirty
    ensures BlocksOk(blocks + [b])
    ensures EncodeAll(blocks + [b]) == EncodeAll(blocks) + Encode(b)
    ensures Live(blocks + [b]) == Live(blocks) + [b]
    ensures LiveSize(blocks + [b]) == LiveSize(blocks) + b.Size()
    ensures DataBytes(blocks + [b]) == DataBytes(blocks) + |b.data|
  {
    One(b);
    EncodeAppend(blocks, [b]);
    LiveAppend(blocks, [b]);
    LiveSizeAppend(blocks, [b]);
    LiveSizeOne(b);
  }

  /** Marking one live block dirty takes exactly it out of the live row. */
  lemma LiveWithout(blocks: seq<Block>, i: nat)
    requires i < |blocks| && blocks[i].Ok() && !blocks[i].dirty
    ensures var r := blocks[i := blocks[i].(dirty := true)];
            && Live(blocks) == Live(blocks[..i]) + [blocks[i]] + Live(blocks[i + 1..])
            && Live(r) == Live(blocks[..i]) + Live(blocks[i + 1..])
            && DataBytes(r) == DataBytes(blocks) - |blocks[i].data|
  {
    hide Live, DataBytes;
    var r := blocks[i := blocks[i].(dirty := true)];
    var l, t := blocks[..i], blocks[i + 1..];
    Around(blocks, i);
    Around(r, i);
    assert r[..i] == l && r[i + 1..] == t;
    LiveSplit(l, blocks[i], t);
    LiveSplit(l, r[i], t);
  }

  lemma LiveSizeWithout(blocks: seq<Block>, i: nat)
    requires BlocksOk(blocks) && i < |blocks| && !blocks[i].dirty
    ensures var r := blocks[i := blocks[i].(dirty := true)];
            BlocksOk(r) && LiveSize(r) == LiveSize(blocks) - blocks[i].Size()
  {
    var r := blocks[i := blocks[i].(dirty := true)];
    var l, t := blocks[..i], blocks[i + 1..];
    Around(blocks, i);
    Around(r, i);
    assert r[..i] == l && r[i + 1..] == t;
    LiveSizeSplit(l, blocks[i], t);
    LiveSizeSplit(l, r[i], t);
  }
}
