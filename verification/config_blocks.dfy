/** The parameter store on values: a row of small blocks in EEPROM, and what it means for a parameter. */
module ConfigBlocks {
  import opened Bytes

  const DATA_LEN: nat := 8
  const BLOCK_SIZE: nat := 12
  const TOTAL_BLOCKS: nat := 255
  const MAIN_START: nat := 16
  const MAIN_END: nat := 3088
  const EMPTY: byte := 255
  /** Flag bits kept per parameter while looking for duplicates. */
  const FLAG_BITS: nat := 16

  /** One block: parameter, its type, which piece of the value this is, and eight bytes of it. */
  datatype Block = Block(id: byte, kind: byte, num: byte, reserved: byte, data: seq<byte>)

  type Row = seq<Block>

  // ---- bytes of a block ----

  function Address(i: nat): nat { MAIN_START + BLOCK_SIZE * i }

  function BytesOf(b: Block): seq<byte> { [b.id, b.kind, b.num, b.reserved] + b.data }

  function BlockOf(s: seq<byte>): (b: Block)
    requires |s| == BLOCK_SIZE
    ensures BytesOf(b) == s && |b.data| == DATA_LEN
  {
    Block(s[0], s[1], s[2], s[3], s[4..])
  }

  lemma FromTo(b: Block)
    requires |b.data| == DATA_LEN
    ensures BlockOf(BytesOf(b)) == b
  {
  }

  /** A block with one of its bytes replaced. */
  function Patched(b: Block, k: nat, v: byte): Block
    requires |b.data| == DATA_LEN && k < BLOCK_SIZE
  {
    BlockOf(BytesOf(b)[k := v])
  }

  /** Block `to` with its bytes 1 to k-1 already written over block `from`. */
  function Mixed(from: Block, to: Block, k: nat): (b: Block)
    requires |from.data| == |to.data| == DATA_LEN && 1 <= k <= BLOCK_SIZE
    ensures b.id == from.id && |b.data| == DATA_LEN
  {
    BlockOf(BytesOf(from)[..1] + BytesOf(to)[1..k] + BytesOf(from)[k..])
  }

  lemma MixedSteps(from: Block, to: Block, k: nat)
    requires |from.data| == |to.data| == DATA_LEN && 1 <= k <= BLOCK_SIZE
    ensures Mixed(from, to, 1) == from
    ensures k < BLOCK_SIZE ==> Patched(Mixed(from, to, k), k, BytesOf(to)[k]) == Mixed(from, to, k + 1)
    ensures Patched(Mixed(from, to, BLOCK_SIZE), 0, to.id) == to
  {
    var a, b := BytesOf(from), BytesOf(to);
    FromTo(from);
    FromTo(to);
    assert a[..1] + b[1..1] + a[1..] == a;
    if k < BLOCK_SIZE {
      assert (a[..1] + b[1..k] + a[k..])[k := b[k]] == a[..1] + b[1..k + 1] + a[k + 1..];
    }
    assert (a[..1] + b[1..BLOCK_SIZE] + a[BLOCK_SIZE..])[0 := to.id] == b;
  }

  function BlockAt(img: seq<byte>, i: nat): Block
    requires Address(i + 1) <= |img|
  {
    BlockOf(img[Address(i)..Address(i + 1)])
  }

  function RowOf(img: seq<byte>): (r: Row)
    requires |img| >= MAIN_END
    ensures |r| == TOTAL_BLOCKS
  {
    seq(TOTAL_BLOCKS, i requires 0 <= i < TOTAL_BLOCKS => BlockAt(img, i))
  }

  /** Writing one byte changes one block. */
  lemma ByteChanges(img: seq<byte>, i: nat, k: nat, v: byte)
    requires |img| >= MAIN_END && i < TOTAL_BLOCKS && k < BLOCK_SIZE
    ensures Address(i) + k < |img|
    ensures RowOf(img[Address(i) + k := v]) == RowOf(img)[i := Patched(RowOf(img)[i], k, v)]
  {
    var now := img[Address(i) + k := v];
    assert now[Address(i)..Address(i + 1)] == img[Address(i)..Address(i + 1)][k := v];
    forall j | 0 <= j < TOTAL_BLOCKS && j != i
      ensures now[Address(j)..Address(j + 1)] == img[Address(j)..Address(j + 1)]
    {
      Apart(i, j);
    }
  }

  lemma Apart(i: nat, j: nat)
    requires i != j
    ensures Address(j + 1) <= Address(i) || Address(i + 1) <= Address(j)
  {
  }

  predicate WellSized(row: Row) {
    forall i :: 0 <= i < |row| ==> |row[i].data| == DATA_LEN
  }

  lemma RowSized(img: seq<byte>)
    requires |img| >= MAIN_END
    ensures WellSized(RowOf(img))
  {
  }

  // ---- looking blocks up ----

  predicate Holds(b: Block, id: byte, n: nat) { b.id == id && b.num == n }

  /** Index of the first block at or after i that holds piece n of a parameter, or -1. */
  function FirstFrom(row: Row, id: byte, n: nat, i: nat): (r: int)
    requires i <= |row|
    ensures r == -1 || (i <= r < |row| && Holds(row[r], id, n))
    ensures forall j :: i <= j < (if r == -1 then |row| else r) ==> !Holds(row[j], id, n)
    decreases |row| - i
  {
    if i == |row| then -1 else if Holds(row[i], id, n) then i else FirstFrom(row, id, n, i + 1)
  }

  function First(row: Row, id: byte, n: nat): (r: int)
    ensures r == -1 || (0 <= r < |row| && Holds(row[r], id, n))
    ensures forall j :: 0 <= j < (if r == -1 then |row| else r) ==> !Holds(row[j], id, n)
  {
    FirstFrom(row, id, n, 0)
  }

  /** The stored piece of a parameter value. */
  function Piece(row: Row, id: byte, n: nat): Option<seq<byte>> {
    var i := First(row, id, n);
    if i < 0 then None else Some(row[i].data)
  }

  /** Index of the second block that holds the piece, or -1. */
  function Second(row: Row, id: byte, n: nat): (r: int)
    ensures -1 <= r < |row| && (r >= 0 ==> 0 <= First(row, id, n) < r && Holds(row[r], id, n))
    ensures forall j :: 0 <= j < (if r == -1 then |row| else r) && Holds(row[j], id, n) ==> j == First(row, id, n)
  {
    var f := First(row, id, n);
    if f < 0 then -1 else FirstFrom(row, id, n, f + 1)
  }

  /** What a second copy of the piece says. */
  function Spare(row: Row, id: byte, n: nat): Option<seq<byte>> {
    var i := Second(row, id, n);
    if i < 0 then None else Some(row[i].data)
  }

  predicate Unique(row: Row, id: byte, n: nat) {
    forall i, j :: 0 <= i < j < |row| ==> !(Holds(row[i], id, n) && Holds(row[j], id, n))
  }

  /** Every piece that has a flag bit is stored at most once. */
  ghost predicate AllUnique(row: Row) {
    forall id: byte, n: nat :: id != EMPTY && n < FLAG_BITS ==> Unique(row, id, n)
  }

  /** Pieces are found by their first block. */
  lemma FirstIs(row: Row, id: byte, n: nat, i: nat)
    requires i < |row| && Holds(row[i], id, n) && forall j :: 0 <= j < i ==> !Holds(row[j], id, n)
    ensures First(row, id, n) == i
  {
  }

  /** Pieces have a second copy exactly if they are not unique. */
  lemma UniqueNoSecond(row: Row, id: byte, n: nat)
    ensures Unique(row, id, n) <==> Second(row, id, n) < 0
  {
    if Second(row, id, n) >= 0 {
      assert Holds(row[First(row, id, n)], id, n);
    }
  }

  function FirstFreeFrom(row: Row, i: nat): (r: int)
    requires i <= |row|
    ensures r == -1 || (i <= r < |row| && row[r].id == EMPTY)
    ensures forall j :: i <= j < (if r == -1 then |row| else r) ==> row[j].id != EMPTY
    decreases |row| - i
  {
    if i == |row| then -1 else if row[i].id == EMPTY then i else FirstFreeFrom(row, i + 1)
  }

  /** The first free block, or -1. */
  function FirstFree(row: Row): (r: int)
    ensures r == -1 || (0 <= r < |row| && row[r].id == EMPTY)
    ensures forall j :: 0 <= j < (if r == -1 then |row| else r) ==> row[j].id != EMPTY
  {
    FirstFreeFrom(row, 0)
  }

  lemma FirstFreeIs(row: Row, i: nat)
    requires i < |row| && row[i].id == EMPTY && forall j :: 0 <= j < i ==> row[j].id != EMPTY
    ensures FirstFree(row) == i
  {
  }

  lemma FreeExists(row: Row)
    ensures FirstFree(row) >= 0 <==> FreeCount(row) > 0
  {
    if FirstFree(row) >= 0 {
      FreeCountSome(row, FirstFree(row));
    } else {
      FreeCountNone(row);
    }
  }

  function FreeCount(row: Row): nat {
    if row == [] then 0 else FreeCount(row[..|row| - 1]) + (if row[|row| - 1].id == EMPTY then 1 else 0)
  }

  lemma {:induction false} FreeCountUpdate(row: Row, i: nat, b: Block)
    requires i < |row|
    ensures FreeCount(row[i := b])
            == FreeCount(row) - (if row[i].id == EMPTY then 1 else 0) + (if b.id == EMPTY then 1 else 0)
  {
    var now, k := row[i := b], |row| - 1;
    if i < k {
      assert now[..k] == row[..k][i := b];
      FreeCountUpdate(row[..k], i, b);
    } else {
      assert now[..k] == row[..k];
    }
  }

  lemma {:induction false} FreeCountNone(row: Row)
    requires forall i :: 0 <= i < |row| ==> row[i].id != EMPTY
    ensures FreeCount(row) == 0
  {
    if row != [] {
      FreeCountNone(row[..|row| - 1]);
    }
  }

  lemma {:induction false} FreeCountSome(row: Row, i: nat)
    requires i < |row| && row[i].id == EMPTY
    ensures FreeCount(row) > 0
  {
    if i < |row| - 1 {
      FreeCountSome(row[..|row| - 1], i);
    }
  }

  // ---- replacing one piece ----

  function Vacated(b: Block): Block { b.(id := EMPTY) }

  /** A free block that may be partly written, but not yet claimed. */
  predicate SameButFree(was: Row, now: Row, i: nat) {
    && |was| == |now| && i < |was| && now[i].id == EMPTY == was[i].id
    && now == was[i := now[i]]
  }

  /** Row after the old block, if any, is given up. */
  function GivenUp(row: Row, prior: int): Row
    requires prior < |row|
  {
    if prior < 0 then row else row[prior := Vacated(row[prior])]
  }

  /** Storing piece n of a parameter: the new block goes into a free one before the old one is erased. */
  predicate Replacing(row: Row, free: nat, prior: int, b: Block) {
    && free < |row| && row[free].id == EMPTY && b.id != EMPTY
    && prior == First(row, b.id, b.num)
  }

  /** The three kinds of row a power cut can leave behind while one piece is stored. */
  predicate PieceCut(row: Row, free: nat, prior: int, b: Block, cut: Row)
    requires Replacing(row, free, prior, b)
  {
    SameButFree(row, cut, free) || cut == row[free := b] || cut == GivenUp(row[free := b], prior)
  }

  lemma FreeInvisible(was: Row, now: Row, i: nat, id: byte, n: nat)
    requires SameButFree(was, now, i) && id != EMPTY
    ensures First(now, id, n) == First(was, id, n) && Piece(now, id, n) == Piece(was, id, n)
  {
    var f := First(was, id, n);
    if f >= 0 {
      forall j | 0 <= j < f ensures !Holds(now[j], id, n) {
        assert !Holds(was[j], id, n);
      }
      FirstIs(now, id, n, f);
    } else {
      forall j | 0 <= j < |now| ensures !Holds(now[j], id, n) {
        assert !Holds(was[j], id, n);
      }
    }
  }

  /** Blocks that do not hold a piece do not matter to it. */
  lemma OtherPiece(was: Row, now: Row, id: byte, n: nat)
    requires |was| == |now|
    requires forall j :: 0 <= j < |was| ==> Holds(was[j], id, n) == Holds(now[j], id, n)
    requires forall j :: 0 <= j < |was| && Holds(was[j], id, n) ==> was[j] == now[j]
    ensures First(now, id, n) == First(was, id, n) && Piece(now, id, n) == Piece(was, id, n)
    ensures Second(now, id, n) == Second(was, id, n) && Spare(now, id, n) == Spare(was, id, n)
    ensures Unique(was, id, n) ==> Unique(now, id, n)
  {
    var f, g := First(was, id, n), First(now, id, n);
    if f >= 0 {
      assert Holds(now[f], id, n);
    }
    if g >= 0 {
      assert Holds(was[g], id, n);
    }
    var f2, g2 := Second(was, id, n), Second(now, id, n);
    if f2 >= 0 {
      assert Holds(now[f2], id, n);
    }
    if g2 >= 0 {
      assert Holds(was[g2], id, n);
    }
  }

  /** Cut at any point, every piece of every parameter is wholly old, or this one wholly new. Only a second copy that
      was there before, below the block just written, can surface instead. */
  lemma CutPiece(row: Row, free: nat, prior: int, b: Block, cut: Row, id: byte, n: nat)
    requires Replacing(row, free, prior, b) && PieceCut(row, free, prior, b, cut) && id != EMPTY
    ensures || Piece(cut, id, n) == Piece(row, id, n)
            || (id == b.id && n == b.num && Piece(cut, id, n) == Some(b.data))
            || (id == b.id && n == b.num && 0 <= Second(row, id, n) < free && Piece(cut, id, n) == Spare(row, id, n))
    ensures cut == GivenUp(row[free := b], prior) && id == b.id && n == b.num ==>
              First(cut, id, n) == if 0 <= Second(row, id, n) < free then Second(row, id, n) else free
  {
    if id != b.id || n != b.num {
      if SameButFree(row, cut, free) {
        FreeInvisible(row, cut, free, id, n);
      } else {
        OtherPiece(row, cut, id, n);
      }
    } else if cut == GivenUp(row[free := b], prior) {
      StoredPiece(row, free, prior, b);
    } else if SameButFree(row, cut, free) {
      FreeInvisible(row, cut, free, id, n);
    } else {
      FirstIs(cut, id, n, if 0 <= prior < free then prior else free);
    }
  }

  /** Once stored, the piece is found in its new block, unless a second copy lies below that. */
  lemma StoredPiece(row: Row, free: nat, prior: int, b: Block)
    requires Replacing(row, free, prior, b)
    ensures var now, second := GivenUp(row[free := b], prior), Second(row, b.id, b.num);
            && First(now, b.id, b.num) == (if 0 <= second < free then second else free)
            && Piece(now, b.id, b.num) == (if 0 <= second < free then Spare(row, b.id, b.num) else Some(b.data))
            && (Unique(row, b.id, b.num) ==> Unique(now, b.id, b.num))
  {
    var now, second := GivenUp(row[free := b], prior), Second(row, b.id, b.num);
    forall j | 0 <= j < |now| && j != free
      ensures Holds(now[j], b.id, b.num) <==> j != prior && Holds(row[j], b.id, b.num)
    {
    }
    FirstIs(now, b.id, b.num, if 0 <= second < free then second else free);
    UniqueNoSecond(row, b.id, b.num);
  }

  /** The piece reads back new exactly when no second copy lies below the block it went to, or that copy says the
      same. */
  lemma ReadsBack(row: Row, free: nat, prior: int, b: Block)
    requires Replacing(row, free, prior, b)
    ensures Piece(GivenUp(row[free := b], prior), b.id, b.num) == Some(b.data)
            <==> !(0 <= Second(row, b.id, b.num) < free) || Spare(row, b.id, b.num) == Some(b.data)
  {
    StoredPiece(row, free, prior, b);
  }

  lemma StoredElsewhere(row: Row, free: nat, prior: int, b: Block, id: byte, n: nat)
    requires Replacing(row, free, prior, b) && id != EMPTY && (id != b.id || n != b.num)
    ensures var now := GivenUp(row[free := b], prior);
            && Piece(now, id, n) == Piece(row, id, n) && First(now, id, n) == First(row, id, n)
            && Second(now, id, n) == Second(row, id, n) && Spare(now, id, n) == Spare(row, id, n)
            && (Unique(row, id, n) ==> Unique(now, id, n))
  {
    OtherPiece(row, GivenUp(row[free := b], prior), id, n);
  }

  lemma StoredUnique(row: Row, free: nat, prior: int, b: Block)
    requires Replacing(row, free, prior, b) && AllUnique(row)
    ensures AllUnique(GivenUp(row[free := b], prior))
  {
    var now := GivenUp(row[free := b], prior);
    forall id: byte, n: nat | id != EMPTY && n < FLAG_BITS
      ensures Unique(now, id, n)
    {
      assert Unique(row, id, n);
      if id == b.id && n == b.num {
        StoredPiece(row, free, prior, b);
      } else {
        StoredElsewhere(row, free, prior, b, id, n);
      }
    }
  }

  lemma StoredFree(row: Row, free: nat, prior: int, b: Block)
    requires Replacing(row, free, prior, b)
    ensures FreeCount(GivenUp(row[free := b], prior)) == FreeCount(row) - (if prior < 0 then 1 else 0)
  {
    FreeCountUpdate(row, free, b);
    if prior >= 0 {
      FreeCountUpdate(row[free := b], prior, Vacated(row[prior]));
    }
  }

  // ---- boot clean-up ----

  /** Parameter types by id; negative for ids that are not in the key-value system. */
  type Types = byte -> int

  predicate Typed(row: Row, types: Types) {
    forall i :: 0 <= i < |row| && row[i].id != EMPTY ==> 0 <= types(row[i].id) == row[i].kind
  }

  /** The blocks clean-up erases: unknown or mistyped ones, and those whose flag bit an earlier block has set.
      A 16-bit flag word has no bit for piece numbers from 16 on. */
  predicate Doomed(row: Row, types: Types, i: nat)
    requires i < |row|
  {
    && row[i].id != EMPTY
    && (types(row[i].id) < 0 || types(row[i].id) != row[i].kind || Flagged(row, row[i].id, row[i].num, i))
  }

  /** Some block before i has set the flag bit of this piece. */
  predicate Flagged(row: Row, id: byte, n: nat, i: nat)
    requires i <= |row|
  {
    n < FLAG_BITS && exists j :: 0 <= j < i && Holds(row[j], id, n)
  }

  function Cleaned(row: Row, types: Types): (r: Row)
    ensures |r| == |row|
  {
    seq(|row|, i requires 0 <= i < |row| => if Doomed(row, types, i) then Vacated(row[i]) else row[i])
  }

  /** The row when clean-up has dealt with the first k blocks. */
  function Partly(row: Row, types: Types, k: nat): (r: Row)
    requires k <= |row|
    ensures |r| == |row|
  {
    seq(|row|, i requires 0 <= i < |row| => if i < k && Doomed(row, types, i) then Vacated(row[i]) else row[i])
  }

  lemma FlagsOfPart(row: Row, types: Types, k: nat, id: byte, n: nat, i: nat)
    requires k <= |row| && i <= |row| && id != EMPTY
    ensures Flagged(Partly(row, types, k), id, n, i) ==> Flagged(row, id, n, i)
  {
    var p := Partly(row, types, k);
    if Flagged(p, id, n, i) {
      var j :| 0 <= j < i && Holds(p[j], id, n);
      assert Holds(row[j], id, n);
    }
  }

  predicate RightType(b: Block, types: Types) { b.id != EMPTY && 0 <= types(b.id) == b.kind }

  /** After a clean-up cut short before block k, the next one still finds out that block i repeats a piece: the first
      block of the piece has the right type and stays, or one of them is still to come. */
  predicate StillFlagged(row: Row, types: Types, k: nat, i: nat)
    requires k <= i < |row|
  {
    var f := First(row, row[i].id, row[i].num);
    (f >= 0 && RightType(row[f], types)) || exists j :: k <= j < i && Holds(row[j], row[i].id, row[i].num)
  }

  /** A clean-up that is itself cut short and run again at the next boot ends up in the same row, exactly if no block of
      the right type loses all its flags: those of blocks before it with the same piece. */
  lemma CleanResumes(row: Row, types: Types, k: nat)
    requires k <= |row|
    ensures Cleaned(Partly(row, types, k), types) == Cleaned(row, types)
            <==> forall i :: k <= i < |row| && RightType(row[i], types) && row[i].num < FLAG_BITS
                   ==> StillFlagged(row, types, k, i)
  {
    var p := Partly(row, types, k);
    forall i | 0 <= i < |row|
      ensures Cleaned(p, types)[i] == Cleaned(row, types)[i]
              <==> (k <= i && RightType(row[i], types) && row[i].num < FLAG_BITS ==> StillFlagged(row, types, k, i))
    {
      BlockResumes(row, types, k, i);
    }
  }

  lemma BlockResumes(row: Row, types: Types, k: nat, i: nat)
    requires k <= |row| && i < |row|
    ensures Cleaned(Partly(row, types, k), types)[i] == Cleaned(row, types)[i]
            <==> (k <= i && RightType(row[i], types) && row[i].num < FLAG_BITS ==> StillFlagged(row, types, k, i))
  {
    var p, id, n := Partly(row, types, k), row[i].id, row[i].num;
    if id != EMPTY {
      FlagsOfPart(row, types, k, id, n, i);
      if k <= i && RightType(row[i], types) && n < FLAG_BITS {
        FlagsLeft(row, types, k, i);
      }
    }
  }

  /** The flags of a block that the second clean-up sees. */
  lemma FlagsLeft(row: Row, types: Types, k: nat, i: nat)
    requires k <= i < |row| && RightType(row[i], types) && row[i].num < FLAG_BITS
    ensures Flagged(Partly(row, types, k), row[i].id, row[i].num, i) == Flagged(row, row[i].id, row[i].num, i)
            <==> StillFlagged(row, types, k, i)
  {
    var p, id, n := Partly(row, types, k), row[i].id, row[i].num;
    FlagsOfPart(row, types, k, id, n, i);
    var f := First(row, id, n);
    if f < i {
      assert Holds(row[f], id, n);
      assert Doomed(row, types, f) <==> !RightType(row[f], types);
      if StillFlagged(row, types, k, i) {
        var j := if RightType(row[f], types) then f else FirstFrom(row, id, n, k);
        assert Holds(p[j], id, n);
      } else {
        forall j | 0 <= j < i
          ensures !Holds(p[j], id, n)
        {
          assert Holds(row[j], id, n) ==> j < k && Doomed(row, types, j);
        }
      }
    }
  }

  /** A store without mistyped blocks has the first block of every piece in the right type. */
  lemma TypedResumes(row: Row, types: Types, k: nat)
    requires Typed(row, types) && k <= |row|
    ensures Cleaned(Partly(row, types, k), types) == Cleaned(row, types)
  {
    CleanResumes(row, types, k);
  }

  /** A mistyped block in front of a good one of the same piece: in one go both are erased, but when the power is cut
      after the first, the next boot keeps the second. */
  lemma ResumesDifferently(good: Block, kind: byte, types: Types)
    requires RightType(good, types) && good.num < FLAG_BITS && kind != good.kind
    ensures var row := [good.(kind := kind), good];
            && Cleaned(row, types) == [Vacated(row[0]), Vacated(good)]
            && Cleaned(Partly(row, types, 1), types) == [Vacated(row[0]), good]
  {
    var row := [good.(kind := kind), good];
    assert Holds(row[0], good.id, good.num);
  }

  /** Clean-up never changes what a well-typed store says. */
  lemma CleanPreserves(row: Row, types: Types, id: byte, n: nat)
    requires Typed(row, types) && id != EMPTY
    ensures Piece(Cleaned(row, types), id, n) == Piece(row, id, n)
    ensures First(Cleaned(row, types), id, n) == First(row, id, n)
  {
    var r, f := Cleaned(row, types), First(row, id, n);
    forall j | 0 <= j < |row| ensures Holds(r[j], id, n) ==> Holds(row[j], id, n) {
    }
    if f >= 0 {
      assert !Doomed(row, types, f);
      FirstIs(r, id, n, f);
    }
  }

  /** Of two blocks for the same piece, clean-up keeps both exactly when the piece number has no flag bit. */
  lemma DuplicatesLeft(row: Row, types: Types, i: nat, j: nat, id: byte, n: nat)
    requires Typed(row, types) && id != EMPTY && i < j < |row| && Holds(row[i], id, n) && Holds(row[j], id, n)
    ensures Holds(Cleaned(row, types)[i], id, n) && Holds(Cleaned(row, types)[j], id, n) <==> n >= 16
  {
    if n < FLAG_BITS {
      assert Flagged(row, id, n, j);
    }
  }

  /** After clean-up no piece with a flag bit is stored twice, whatever was there before. */
  lemma CleanUnique(row: Row, types: Types)
    ensures AllUnique(Cleaned(row, types))
  {
    var r := Cleaned(row, types);
    forall id: byte, n: nat | id != EMPTY && n < FLAG_BITS
      ensures Unique(r, id, n)
    {
      forall i, j | 0 <= i < j < |r| ensures !(Holds(r[i], id, n) && Holds(r[j], id, n)) {
        assert Holds(r[i], id, n) ==> Holds(row[i], id, n);
        assert Holds(row[i], id, n) ==> Flagged(row, id, n, j);
      }
    }
  }

  lemma CleanTyped(row: Row, types: Types)
    ensures Typed(Cleaned(row, types), types)
  {
  }

  // ---- whole parameters ----

  /** Sizes of the key-value types. */
  function TypeSize(kind: int): (r: nat)
    ensures r <= 512 || r == 65535
    ensures r <= 512 ==> 0 <= kind <= 45
  {
    if kind == 0 then 0
    else if 1 <= kind <= 3 then 1
    else if 4 <= kind <= 5 then 2
    else if kind in {6, 7, 10, 44} then 4
    else if kind in {8, 9, 42} then 8
    else if kind == 40 then 128
    else if kind == 45 then 512
    else if kind == 41 then 6
    else if kind == 43 then 16
    else 65535
  }

  /** Number of blocks of a value, in eight bits: a type of invalid size has none. */
  function PieceCount(len: nat): nat { (len / DATA_LEN + 1) % 256 }

  /** Parameters listed in the key-value system with a type of known size. */
  predicate Known(types: Types, id: byte) {
    id != EMPTY && TypeSize(types(id)) <= 512
  }

  lemma PiecesOfKnown(types: Types, id: byte)
    requires id != EMPTY
    ensures PieceCount(TypeSize(types(id))) > 0 <==> Known(types, id)
    ensures Known(types, id) ==> 0 <= types(id) <= 45 && TypeSize(types(id)) <= 512
  {
  }

  function SettingFor(types: Types, id: byte, value: seq<byte>): Setting
    requires Known(types, id) && TypeSize(types(id)) <= |value|
  {
    Setting(id, types(id), value[..TypeSize(types(id))])
  }

  datatype Setting = Setting(id: byte, kind: byte, value: seq<byte>)

  /** Eight bytes of the value, padded with zeros at the end. */
  function PieceData(value: seq<byte>, n: nat): (r: seq<byte>)
    ensures |r| == DATA_LEN
  {
    seq(DATA_LEN, k requires 0 <= k < DATA_LEN => if DATA_LEN * n + k < |value| then value[DATA_LEN * n + k] else 0)
  }

  /** The piece as it is copied: what is left of the value, then zeros. */
  lemma PieceBytes(value: seq<byte>, n: nat, data: seq<byte>)
    requires var pos := Min(|value|, DATA_LEN * n);
             var k := Min(|value| - pos, DATA_LEN);
             data == value[pos..pos + k] + seq(DATA_LEN - k, j => 0)
    ensures data == PieceData(value, n)
  {
    var p := PieceData(value, n);
    assert |data| == |p|;
    assert forall k :: 0 <= k < DATA_LEN ==> data[k] == p[k];
  }

  function NewBlock(s: Setting, n: byte): Block {
    Block(s.id, s.kind, n, 255, PieceData(s.value, n))
  }

  /** The row after storing one piece in the first free block; without a free block nothing happens. */
  function Store(row: Row, b: Block): (r: Row)
    ensures |r| == |row|
  {
    var free := FirstFree(row);
    if free < 0 then row else GivenUp(row[free := b], First(row, b.id, b.num))
  }

  /** The row after storing the first i pieces of a setting, one after the other. */
  function AfterSet(row: Row, s: Setting, i: nat): (r: Row)
    requires i <= 256
    ensures |r| == |row|
  {
    if i == 0 then row else Store(AfterSet(row, s, i - 1), NewBlock(s, i - 1))
  }

  /** The block piece n of a setting goes to. */
  function Target(row: Row, s: Setting, n: nat): int
    requires n < 256
  {
    FirstFree(AfterSet(row, s, n))
  }

  /** A second copy of piece n lies below the block the new one goes to: that copy is what will be found. */
  predicate Shadowed(row: Row, s: Setting, n: nat)
    requires n < 256
  {
    0 <= Second(row, s.id, n) < Target(row, s, n)
  }

  /** What piece n says once it is stored. */
  function Settled(was: Row, s: Setting, n: nat): Option<seq<byte>>
    requires n < 256
  {
    if Shadowed(was, s, n) then Spare(was, s.id, n) else Some(PieceData(s.value, n))
  }

  /** A piece stored at most once reads back new. */
  lemma UniqueSettles(was: Row, s: Setting, n: nat)
    requires n < 256 && Unique(was, s.id, n)
    ensures Settled(was, s, n) == Some(PieceData(s.value, n))
  {
    UniqueNoSecond(was, s.id, n);
  }

  /** After the first i pieces of a setting went in: those are settled, the others old, other parameters untouched. */
  predicate PieceAfter(was: Row, now: Row, s: Setting, i: nat, id: byte, n: nat)
    requires i <= 256
  {
    && (Unique(was, id, n) ==> Unique(now, id, n))
    && if id == s.id && n < i then First(now, id, n) >= 0 && Piece(now, id, n) == Settled(was, s, n)
       else
         && First(now, id, n) == First(was, id, n) && Piece(now, id, n) == Piece(was, id, n)
         && Second(now, id, n) == Second(was, id, n) && Spare(now, id, n) == Spare(was, id, n)
  }

  ghost predicate After(was: Row, now: Row, s: Setting, i: nat)
    requires i <= 256
  {
    forall id: byte, n: nat :: id != EMPTY ==> PieceAfter(was, now, s, i, id, n)
  }

  /** What a power cut leaves of a setting: a first part of its pieces settled, one old, new or settled, the others
      old. */
  predicate PieceTorn(was: Row, cut: Row, s: Setting, i: nat, id: byte, n: nat)
    requires i < 256
  {
    if id != s.id || n > i || i == PieceCount(|s.value|) <= n then Piece(cut, id, n) == Piece(was, id, n)
    else Piece(cut, id, n) == Settled(was, s, n) ||
         (n == i && (Piece(cut, id, n) == Piece(was, id, n) || Piece(cut, id, n) == Some(PieceData(s.value, n))))
  }

  ghost predicate TornAt(was: Row, cut: Row, s: Setting, i: nat)
    requires i < 256
  {
    forall id: byte, n: nat :: id != EMPTY ==> PieceTorn(was, cut, s, i, id, n)
  }

  ghost predicate Torn(was: Row, cut: Row, s: Setting, types: Types) {
    && |cut| == |was| && Typed(cut, types)
    && exists i :: 0 <= i <= PieceCount(|s.value|) && TornAt(was, cut, s, i)
  }

  lemma AfterNone(row: Row, s: Setting)
    ensures AfterSet(row, s, 0) == row && After(row, row, s, 0)
  {
  }

  /** A piece that has not been stored yet is where it was. */
  lemma NotYet(was: Row, row: Row, s: Setting, i: nat)
    requires i <= 256 && After(was, row, s, i) && s.id != EMPTY
    ensures (First(row, s.id, i) < 0) == (First(was, s.id, i) < 0)
  {
    assert PieceAfter(was, row, s, i, s.id, i);
  }

  /** One more piece. */
  lemma AfterMore(was: Row, s: Setting, i: nat)
    requires i < PieceCount(|s.value|) && s.id != EMPTY
    requires After(was, AfterSet(was, s, i), s, i) && FirstFree(AfterSet(was, s, i)) >= 0
    ensures After(was, AfterSet(was, s, i + 1), s, i + 1)
  {
    var row, b := AfterSet(was, s, i), NewBlock(s, i);
    var free, prior := FirstFree(row), First(row, s.id, i);
    var now, i1 := AfterSet(was, s, i + 1), i + 1;
    forall id: byte, n: nat | id != EMPTY
      ensures PieceAfter(was, now, s, i1, id, n)
    {
      assert PieceAfter(was, row, s, i, id, n);
      if id == s.id && n == i {
        StoredPiece(row, free, prior, b);
      } else {
        StoredElsewhere(row, free, prior, b, id, n);
      }
    }
  }

  /** Where a block stands in the memory. */
  lemma BlockInNumbers(img: seq<byte>, i: nat)
    requires |img| >= 3088 && i < 255
    ensures var b := RowOf(img)[i];
            && b.id == img[16 + 12 * i] && b.kind == img[17 + 12 * i] && b.num == img[18 + 12 * i]
            && b.data == img[20 + 12 * i..28 + 12 * i]
  {
    var all := img[16 + 12 * i..28 + 12 * i];
    assert BytesOf(RowOf(img)[i]) == all;
    assert all[4..] == img[20 + 12 * i..28 + 12 * i];
  }

  /** What stands in the memory for piece n of a setting that is in: the parameter, its type, the number of the piece,
      and eight bytes of the value, with zeros behind its end. */
  lemma StoredBytes(was: Row, img: seq<byte>, s: Setting, done: nat, n: nat, types: Types) returns (i: nat)
    requires |img| >= 3088 && done <= 256 && After(was, RowOf(img), s, done) && n < done
    requires s.id != EMPTY && Unique(was, s.id, n) && Typed(RowOf(img), types)
    ensures i < 255 && img[16 + 12 * i] == s.id && img[17 + 12 * i] == types(s.id) && img[18 + 12 * i] == n
    ensures var d := img[20 + 12 * i..28 + 12 * i];
            forall k :: 0 <= k < 8 ==> d[k] == if 8 * n + k < |s.value| then s.value[8 * n + k] else 0
  {
    assert PieceAfter(was, RowOf(img), s, done, s.id, n);
    UniqueSettles(was, s, n);
    i := First(RowOf(img), s.id, n);
    BlockInNumbers(img, i);
    hide After, RowOf, First;
    assert RowOf(img)[i].data == PieceData(s.value, n);
  }

  lemma CutTorn(was: Row, s: Setting, i: nat, cut: Row, types: Types)
    requires i < PieceCount(|s.value|) && s.id != EMPTY
    requires After(was, AfterSet(was, s, i), s, i) && FirstFree(AfterSet(was, s, i)) >= 0
    requires var row := AfterSet(was, s, i);
             PieceCut(row, FirstFree(row), First(row, s.id, i), NewBlock(s, i), cut)
    requires Typed(AfterSet(was, s, i), types) && 0 <= types(s.id) == s.kind
    ensures Torn(was, cut, s, types)
  {
    var row, b := AfterSet(was, s, i), NewBlock(s, i);
    forall id: byte, n: nat | id != EMPTY
      ensures PieceTorn(was, cut, s, i, id, n)
    {
      assert PieceAfter(was, row, s, i, id, n);
      CutPiece(row, FirstFree(row), First(row, s.id, i), b, cut, id, n);
    }
    assert TornAt(was, cut, s, i);
  }

  /** The main power-cut result: whatever the cut left, after the boot clean-up every other parameter reads as before,
      every piece of the parameter is wholly old or wholly settled, settled ones first, one in between may also be new
      where a second copy would have settled, and no piece below 16 is duplicated. */
  lemma BootAfterCut(was: Row, cut: Row, s: Setting, types: Types)
    requires Torn(was, cut, s, types)
    ensures Torn(was, Cleaned(cut, types), s, types)
    ensures AllUnique(Cleaned(cut, types))
  {
    var now := Cleaned(cut, types);
    CleanTyped(cut, types);
    var i :| 0 <= i <= PieceCount(|s.value|) && TornAt(was, cut, s, i);
    forall id: byte, n: nat | id != EMPTY
      ensures PieceTorn(was, now, s, i, id, n)
    {
      assert PieceTorn(was, cut, s, i, id, n);
      CleanPreserves(cut, types, id, n);
    }
    assert TornAt(was, now, s, i);
    CleanUnique(cut, types);
  }

  // ---- reading a parameter back ----

  predicate Complete(row: Row, id: byte, count: nat) {
    forall n :: 0 <= n < count ==> First(row, id, n) >= 0
  }

  /** The value of a parameter as its pieces spell it. */
  function Value(row: Row, id: byte, len: nat): (r: seq<byte>)
    requires Complete(row, id, len / DATA_LEN + 1) && WellSized(row)
    ensures |r| == len
  {
    seq(len, k requires 0 <= k < len => row[First(row, id, k / DATA_LEN)].data[k % DATA_LEN])
  }

  /** Bytes of piece n that belong to a value of this length. */
  function Used(len: nat, n: nat): nat
    requires DATA_LEN * n < len
  {
    Min(len - DATA_LEN * n, DATA_LEN)
  }

  /** Piece n will read back as part of the value: no second copy shadows it, or that copy says the same. */
  predicate Survives(was: Row, s: Setting, n: nat)
    requires DATA_LEN * n < |s.value| && n < 256 && WellSized(was)
  {
    Shadowed(was, s, n) ==>
      var k := Used(|s.value|, n);
      was[Second(was, s.id, n)].data[..k] == PieceData(s.value, n)[..k]
  }

  lemma ValueSlice(now: Row, id: byte, len: nat, n: nat)
    requires WellSized(now) && Complete(now, id, len / DATA_LEN + 1) && DATA_LEN * n < len
    ensures First(now, id, n) >= 0
    ensures var k := Used(len, n);
            Value(now, id, len)[DATA_LEN * n..DATA_LEN * n + k] == now[First(now, id, n)].data[..k]
  {
    forall k | 0 <= k < Used(len, n)
      ensures Value(now, id, len)[DATA_LEN * n + k] == now[First(now, id, n)].data[k]
    {
      DivModUnique(DATA_LEN * n + k, DATA_LEN, n, k);
    }
  }

  lemma PieceSlice(value: seq<byte>, n: nat)
    requires DATA_LEN * n < |value|
    ensures var k := Used(|value|, n);
            value[DATA_LEN * n..DATA_LEN * n + k] == PieceData(value, n)[..k]
  {
  }

  lemma SettledPiece(was: Row, now: Row, s: Setting, n: nat)
    requires WellSized(was) && WellSized(now) && s.id != EMPTY && |s.value| <= 512 && DATA_LEN * n < |s.value|
    requires After(was, now, s, PieceCount(|s.value|)) && Complete(now, s.id, |s.value| / DATA_LEN + 1)
    ensures Survives(was, s, n) <==>
            var from, to := DATA_LEN * n, DATA_LEN * n + Used(|s.value|, n);
            Value(now, s.id, |s.value|)[from..to] == s.value[from..to]
  {
    hide Value, PieceData, AfterSet;
    assert PieceAfter(was, now, s, PieceCount(|s.value|), s.id, n);
    ValueSlice(now, s.id, |s.value|, n);
    PieceSlice(s.value, n);
  }

  /** Get after set: once all pieces of a setting are in, its value reads back exactly if every piece survives. */
  lemma GetAfterSet(was: Row, now: Row, s: Setting)
    requires WellSized(was) && WellSized(now) && s.id != EMPTY && |s.value| <= 512
    requires After(was, now, s, PieceCount(|s.value|))
    ensures Complete(now, s.id, |s.value| / DATA_LEN + 1)
    ensures Value(now, s.id, |s.value|) == s.value
            <==> forall n :: 0 <= n && DATA_LEN * n < |s.value| ==> Survives(was, s, n)
  {
    var count := |s.value| / DATA_LEN + 1;
    forall n | 0 <= n < count
      ensures First(now, s.id, n) >= 0
    {
      assert PieceAfter(was, now, s, PieceCount(|s.value|), s.id, n);
    }
    var v := Value(now, s.id, |s.value|);
    hide Value, Survives, After;
    forall n | 0 <= n && DATA_LEN * n < |s.value|
      ensures v == s.value ==> Survives(was, s, n)
    {
      SettledPiece(was, now, s, n);
    }
    if forall n :: 0 <= n && DATA_LEN * n < |s.value| ==> Survives(was, s, n) {
      forall i | 0 <= i < |s.value|
        ensures v[i] == s.value[i]
      {
        var n, k := i / DATA_LEN, i % DATA_LEN;
        SettledPiece(was, now, s, n);
        var to := DATA_LEN * n + Used(|s.value|, n);
        assert v[DATA_LEN * n..to][k] == s.value[DATA_LEN * n..to][k];
      }
    }
  }

  /** Values of up to 128 bytes always survive: their pieces have flag bits, so none is stored twice. */
  lemma ShortSurvives(was: Row, s: Setting, n: nat)
    requires AllUnique(was) && WellSized(was) && s.id != EMPTY && |s.value| <= 128 && DATA_LEN * n < |s.value|
    ensures Survives(was, s, n)
  {
    assert Unique(was, s.id, n);
    UniqueNoSecond(was, s.id, n);
  }

  /** How many of the first k pieces of a parameter are not there yet. */
  function Missing(row: Row, id: byte, k: nat): nat {
    if k == 0 then 0 else Missing(row, id, k - 1) + (if First(row, id, k - 1) < 0 then 1 else 0)
  }

  /** An overwrite finds every piece in place. */
  lemma {:induction false} NothingMissing(row: Row, id: byte, k: nat, count: nat)
    requires Complete(row, id, count) && k <= count
    ensures Missing(row, id, k) == 0
  {
    if k > 0 {
      NothingMissing(row, id, k - 1, count);
    }
  }

  lemma {:induction false} MissingGrows(row: Row, id: byte, j: nat, k: nat)
    requires j <= k
    ensures Missing(row, id, j) <= Missing(row, id, k)
  {
    if j < k {
      MissingGrows(row, id, j, k - 1);
    }
  }
}
