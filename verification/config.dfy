/** The parameter store in EEPROM: byte writes, the RAM index, and the operations on parameters. */
module Config {
  import opened Bytes
  import opened ConfigBlocks

  const INDEX_SIZE: nat := 16
  const NO_BLOCK: nat := 255

  /** An index slot is unused or names the block the full scan would find for piece 0. */
  predicate SlotOk(row: Row, id: int, block: int) {
    || (id == EMPTY && block == NO_BLOCK)
    || (0 <= id < EMPTY && 0 <= block < |row| && First(row, id, 0) == block)
  }

  predicate IndexOk(row: Row, ids: seq<int>, blocks: seq<int>) {
    && |ids| == |blocks| == INDEX_SIZE
    && forall k :: 0 <= k < INDEX_SIZE ==> SlotOk(row, ids[k], blocks[k])
  }

  /** The index after every slot naming a block has been wiped. */
  predicate Forgotten(ids: seq<int>, blocks: seq<int>, ids1: seq<int>, blocks1: seq<int>, i: int) {
    && |ids| == |blocks| == |ids1| == |blocks1|
    && forall k :: 0 <= k < |ids| ==>
         if blocks[k] == i then ids1[k] == EMPTY && blocks1[k] == NO_BLOCK
         else ids1[k] == ids[k] && blocks1[k] == blocks[k]
  }

  /** Only slots naming the block that is given up could have gone stale. */
  lemma IndexAfterStore(row: Row, free: nat, prior: int, b: Block, ids: seq<int>, blocks: seq<int>,
                        ids1: seq<int>, blocks1: seq<int>)
    requires IndexOk(row, ids, blocks) && Replacing(row, free, prior, b)
    requires if prior < 0 then ids1 == ids && blocks1 == blocks else Forgotten(ids, blocks, ids1, blocks1, prior)
    ensures IndexOk(GivenUp(row[free := b], prior), ids1, blocks1)
  {
    var now := GivenUp(row[free := b], prior);
    forall k | 0 <= k < INDEX_SIZE
      ensures SlotOk(now, ids1[k], blocks1[k])
    {
      assert SlotOk(row, ids[k], blocks[k]);
      if ids1[k] != EMPTY && (ids[k] != b.id || b.num != 0) {
        StoredElsewhere(row, free, prior, b, ids[k], 0);
      }
    }
  }

  /** Every row recorded since `was` is one the storing of one piece passes through. */
  ghost predicate LoggedPiece(log0: seq<Row>, log: seq<Row>, row: Row, free: nat, prior: int, b: Block)
    requires Replacing(row, free, prior, b)
  {
    |log0| <= |log| && log[..|log0|] == log0 && forall k :: |log0| <= k < |log| ==>
        PieceCut(row, free, prior, b, log[k])
  }

  ghost predicate LoggedTorn(log0: seq<Row>, log: seq<Row>, was: Row, s: Setting, types: Types) {
    |log0| <= |log| && log[..|log0|] == log0 && forall k :: |log0| <= k < |log| ==> Torn(was, log[k], s, types)
  }

  lemma LogTorn(log0: seq<Row>, log1: seq<Row>, log2: seq<Row>, was: Row, s: Setting, i: nat, types: Types)
    requires i < PieceCount(|s.value|) && s.id != EMPTY
    requires After(was, AfterSet(was, s, i), s, i) && Target(was, s, i) >= 0
    requires Typed(AfterSet(was, s, i), types) && 0 <= types(s.id) == s.kind
    requires LoggedTorn(log0, log1, was, s, types)
    requires var row := AfterSet(was, s, i);
             && Replacing(row, FirstFree(row), First(row, s.id, i), NewBlock(s, i))
             && LoggedPiece(log1, log2, row, FirstFree(row), First(row, s.id, i), NewBlock(s, i))
    ensures LoggedTorn(log0, log2, was, s, types)
  {
    hide After, AfterSet, Typed, First, FirstFree, Torn;
    forall k | |log0| <= k < |log2|
      ensures Torn(was, log2[k], s, types)
    {
      if k < |log1| {
        assert log2[k] == log1[k];
      } else {
        CutTorn(was, s, i, log2[k], types);
      }
    }
    assert log2[..|log0|] == log2[..|log1|][..|log0|];
  }

  // ---- clean-up, step by step ----

  ghost predicate CleaningRow(row: Row, types: Types, v: Row) {
    exists k :: 0 <= k <= |row| && v == Partly(row, types, k)
  }

  lemma PartlyEnds(row: Row, types: Types)
    ensures Partly(row, types, 0) == row && Partly(row, types, |row|) == Cleaned(row, types)
  {
  }

  lemma PartlyStep(row: Row, types: Types, i: nat)
    requires i < |row|
    ensures Partly(row, types, i)[i] == row[i]
    ensures Partly(row, types, i + 1)
            == if Doomed(row, types, i) then Partly(row, types, i)[i := Vacated(row[i])] else Partly(row, types, i)
    ensures CleaningRow(row, types, Partly(row, types, i + 1))
    ensures row[i].id == EMPTY ==> !Doomed(row, types, i)
  {
  }

  lemma NoFlags(row: Row)
    ensures forall id: byte, n: nat :: !Flagged(row, id, n, 0)
  {
  }

  lemma FlagStep(row: Row, i: nat)
    requires i < |row|
    ensures forall id: byte, n: nat ::
              Flagged(row, id, n, i + 1) <==> Flagged(row, id, n, i) || (n < FLAG_BITS && Holds(row[i], id, n))
  {
    var i1 := i + 1;
    forall id: byte, n: nat
      ensures Flagged(row, id, n, i1) <==> Flagged(row, id, n, i) || (n < FLAG_BITS && Holds(row[i], id, n))
    {
      if Flagged(row, id, n, i) {
        var j :| 0 <= j < i && Holds(row[j], id, n);
        assert 0 <= j < i1 && Holds(row[j], id, n);
      }
    }
  }

  lemma DoomedWhen(row: Row, types: Types, i: nat, flags: set<nat>)
    requires i < |row| && row[i].id != EMPTY
    requires forall n: nat :: n in flags <==> Flagged(row, row[i].id, n, i)
    ensures var bit: set<nat> := if row[i].num < FLAG_BITS then {row[i].num} else {};
            Doomed(row, types, i) <==>
            types(row[i].id) < 0 || types(row[i].id) != row[i].kind || flags * bit != {}
  {
    var n := row[i].num;
    var bit: set<nat> := if n < FLAG_BITS then {n} else {};
    if n in flags && n < FLAG_BITS {
      assert n in flags * bit;
    }
  }

  class ConfigStore {
    const ee: array<byte>
    const types: Types
    const indexId: array<int>
    const indexBlock: array<int>
    var indexInsert: nat
    /** The row of blocks after each byte write so far: what a power cut at that moment would leave. */
    ghost var log: seq<Row>

    ghost predicate Shape()
      reads this
    {
      ee.Length >= MAIN_END && indexId.Length == indexBlock.Length == INDEX_SIZE && indexInsert < INDEX_SIZE
      && indexId != indexBlock
    }

    ghost function Row(): (r: ConfigBlocks.Row)
      requires Shape()
      reads this, ee
    {
      RowOf(ee[..])
    }

    ghost predicate Valid()
      reads this, ee, indexId, indexBlock
    {
      Shape() && IndexOk(Row(), indexId[..], indexBlock[..]) && Typed(Row(), types) && AllUnique(Row())
    }

    /** Power-up: the index is RAM and starts out unused, then the stored blocks are cleaned up. */
    constructor (ee: array<byte>, types: Types)
      requires ee.Length >= MAIN_END
      modifies ee
      ensures this.ee == ee && this.types == types && fresh(indexId) && fresh(indexBlock)
      ensures Valid() && Row() == Cleaned(old(RowOf(ee[..])), types)
      ensures forall k :: 0 <= k < |log| ==> CleaningRow(old(RowOf(ee[..])), types, log[k])
    {
      this.ee, this.types := ee, types;
      indexId := new int[INDEX_SIZE](_ => EMPTY);
      indexBlock := new int[INDEX_SIZE](_ => NO_BLOCK);
      indexInsert := 0;
      log := [];
      new;
      hide RowOf, Cleaned, Typed, AllUnique;
      ghost var row := Row();
      CleanBlocks();
      CleanTyped(row, types);
      CleanUnique(row, types);
    }

    /** Erase blocks of unknown parameters, of the wrong type, and duplicates as far as the flag bits can tell. */
    method CleanBlocks()
      requires Shape() && forall k :: 0 <= k < INDEX_SIZE ==> indexId[k] == EMPTY && indexBlock[k] == NO_BLOCK
      requires log == []
      modifies ee, indexId, indexBlock, this`log
      ensures Row() == Cleaned(old(Row()), types)
      ensures forall k :: 0 <= k < INDEX_SIZE ==> indexId[k] == EMPTY && indexBlock[k] == NO_BLOCK
      ensures forall k :: 0 <= k < |log| ==> CleaningRow(old(Row()), types, log[k])
    {
      hide RowOf, Cleaned, Doomed, Flagged, Partly;
      ghost var row := Row();
      var present := new set<nat>[TOTAL_BLOCKS](_ => {});
      PartlyEnds(row, types);
      NoFlags(row);
      for i := 0 to TOTAL_BLOCKS
        invariant Row() == Partly(row, types, i)
        invariant forall id, n :: 0 <= id < TOTAL_BLOCKS ==> (n in present[id] <==> Flagged(row, id, n, i))
        invariant forall k :: 0 <= k < INDEX_SIZE ==> indexId[k] == EMPTY && indexBlock[k] == NO_BLOCK
        invariant forall k :: 0 <= k < |log| ==> CleaningRow(row, types, log[k])
      {
        PartlyStep(row, types, i);
        FlagStep(row, i);
        var id, kind, num := ReadField(i, 0), ReadField(i, 1), ReadField(i, 2);
        if id != EMPTY {
          var bit: set<nat> := if num < FLAG_BITS then {num} else {};
          DoomedWhen(row, types, i, present[id]);
          if types(id) < 0 || types(id) != kind || present[id] * bit != {} {
            EraseBlock(i);
          }
          present[id] := present[id] + bit;
        }
      }
    }

    // ---- bytes ----

    /** A byte that already has the value is not written again. */
    method WriteByte(i: nat, k: nat, v: byte)
      requires Shape() && i < TOTAL_BLOCKS && k < BLOCK_SIZE
      modifies ee, this`log
      ensures Row() == old(Row())[i := Patched(old(Row())[i], k, v)]
      ensures log == old(log) + [Row()]
    {
      ByteChanges(ee[..], i, k, v);
      ghost var now := ee[..][Address(i) + k := v];
      if ee[Address(i) + k] != v {
        ee[Address(i) + k] := v;
      }
      assert ee[..] == now;
      log := log + [RowOf(ee[..])];
    }

    /** Everything but the id goes in first; the id, last, claims the block. */
    method WriteBlock(free: nat, b: Block, ghost prior: int)
      requires Shape() && Replacing(Row(), free, prior, b) && |b.data| == DATA_LEN
      modifies ee, this`log
      ensures Row() == old(Row())[free := b]
      ensures LoggedPiece(old(log), log, old(Row()), free, prior, b)
    {
      hide RowOf, Mixed, Patched, First;
      ghost var row := Row();
      ghost var from := row[free];
      RowSized(ee[..]);
      var bytes := BytesOf(b);
      MixedSteps(from, b, 1);
      for k := 1 to BLOCK_SIZE
        invariant Row() == row[free := Mixed(from, b, k)]
        invariant LoggedPiece(old(log), log, row, free, prior, b)
      {
        MixedSteps(from, b, k);
        WriteByte(free, k, bytes[k]);
        assert SameButFree(row, Row(), free);
      }
      WriteByte(free, 0, b.id);
    }

    /** Give a block up: out of the index first, then its id. */
    method EraseBlock(i: nat)
      requires Shape() && i < TOTAL_BLOCKS
      modifies ee, indexId, indexBlock, this`log
      ensures Row() == old(Row())[i := Vacated(old(Row())[i])]
      ensures Forgotten(old(indexId[..]), old(indexBlock[..]), indexId[..], indexBlock[..], i)
      ensures log == old(log) + [Row()]
    {
      for k := 0 to INDEX_SIZE
        invariant forall j :: 0 <= j < k ==>
                    if old(indexBlock[j]) == i then indexId[j] == EMPTY && indexBlock[j] == NO_BLOCK
                    else indexId[j] == old(indexId[j]) && indexBlock[j] == old(indexBlock[j])
        invariant forall j :: k <= j < INDEX_SIZE ==>
            indexId[j] == old(indexId[j]) && indexBlock[j] == old(indexBlock[j])
        invariant ee[..] == old(ee[..]) && log == old(log)
      {
        if indexBlock[k] == i {
          indexId[k] := EMPTY;
          indexBlock[k] := NO_BLOCK;
        }
      }
      WriteByte(i, 0, EMPTY);
    }

    // ---- lookup ----

    /** The index, and behind it a scan of all blocks, find the first block of a piece. */
    method SeekBlock(id: byte, n: byte) returns (r: int)
      requires Shape() && IndexOk(Row(), indexId[..], indexBlock[..]) && id != EMPTY
      modifies indexId, indexBlock, this`indexInsert
      ensures Shape() && IndexOk(Row(), indexId[..], indexBlock[..])
      ensures r == First(Row(), id, n)
    {
      if n == 0 {
        for k := 0 to INDEX_SIZE {
          assert SlotOk(Row(), indexId[..][k], indexBlock[..][k]);
          if indexId[k] == id {
            return indexBlock[k];
          }
        }
      }
      for i := 0 to TOTAL_BLOCKS
        invariant forall j :: 0 <= j < i ==> !Holds(Row()[j], id, n)
      {
        if ReadField(i, 0) == id && ReadField(i, 2) == n {
          FirstIs(Row(), id, n, i);
          if n == 0 {
            AddToIndex(id, i);
          }
          return i;
        }
      }
      return -1;
    }

    function ReadField(i: nat, k: nat): (r: byte)
      requires Shape() && i < TOTAL_BLOCKS && k < BLOCK_SIZE
      reads this, ee
      ensures r == BytesOf(Row()[i])[k]
    {
      assert ee[..][Address(i)..Address(i + 1)][k] == ee[Address(i) + k];
      ee[Address(i) + k]
    }

    method AddToIndex(id: byte, i: nat)
      requires Shape() && IndexOk(Row(), indexId[..], indexBlock[..])
      requires id != EMPTY && i < TOTAL_BLOCKS && First(Row(), id, 0) == i
      modifies indexId, indexBlock, this`indexInsert
      ensures Shape() && IndexOk(Row(), indexId[..], indexBlock[..])
    {
      ghost var ids, blocks := indexId[..], indexBlock[..];
      ghost var slot := indexInsert;
      indexId[indexInsert] := id;
      indexBlock[indexInsert] := i;
      indexInsert := indexInsert + 1;
      if indexInsert >= INDEX_SIZE {
        indexInsert := 0;
      }
      forall k | 0 <= k < INDEX_SIZE
        ensures SlotOk(Row(), indexId[..][k], indexBlock[..][k])
      {
        assert SlotOk(Row(), ids[k], blocks[k]);
      }
    }

    /** The first free block, or -1 exactly when none is free. */
    method GetFreeBlock() returns (r: int)
      requires Shape()
      ensures r == FirstFree(Row()) && (r == -1 <==> FreeCount(Row()) == 0)
    {
      FreeExists(Row());
      for i := 0 to TOTAL_BLOCKS
        invariant forall j :: 0 <= j < i ==> Row()[j].id != EMPTY
      {
        if ReadField(i, 0) == EMPTY {
          FirstFreeIs(Row(), i);
          return i;
        }
      }
      return -1;
    }

    // ---- parameters ----

    /** Store one piece: new block, then give the old one up. Nothing happens when no block is free. */
    method StorePiece(b: Block) returns (stored: bool)
      requires Valid() && |b.data| == DATA_LEN && b.id != EMPTY && types(b.id) == b.kind
      modifies ee, indexId, indexBlock, this`indexInsert, this`log
      ensures Valid() && Row() == Store(old(Row()), b)
      ensures stored <==> FreeCount(old(Row())) > 0
      ensures stored <==> FirstFree(old(Row())) >= 0
      ensures !stored ==> Row() == old(Row()) && log == old(log)
      ensures stored ==>
                var row := old(Row());
                && Replacing(row, FirstFree(row), First(row, b.id, b.num), b)
                && LoggedPiece(old(log), log, row, FirstFree(row), First(row, b.id, b.num), b)
    {
      hide RowOf, First, FirstFree, Unique, Patched;
      var free := GetFreeBlock();
      if free < 0 {
        return false;
      }
      var prior := SeekBlock(b.id, b.num);
      ghost var row, ids, blocks := Row(), indexId[..], indexBlock[..];
      WriteBlock(free, b, prior);
      if prior >= 0 {
        EraseBlock(prior);
      }
      IndexAfterStore(row, free, prior, b, ids, blocks, indexId[..], indexBlock[..]);
      StoredUnique(row, free, prior, b);
      return true;
    }

    /** Read a parameter back. A parameter whose first piece is missing reads as zeros, and like any other incomplete
        one it is reported. */
    method ReadParam(parameter: byte, value: array<byte>) returns (ok: bool)
      requires Valid() && parameter != EMPTY && value != ee
      requires Known(types, parameter) ==> TypeSize(types(parameter)) <= value.Length
      modifies value, indexId, indexBlock, this`indexInsert
      ensures Valid() && Row() == old(Row()) && WellSized(Row())
      ensures ok <==> Known(types, parameter)
                      && Complete(Row(), parameter, TypeSize(types(parameter)) / DATA_LEN + 1)
      ensures ok ==> value[..TypeSize(types(parameter))] == Value(Row(), parameter, TypeSize(types(parameter)))
      ensures Known(types, parameter) && First(Row(), parameter, 0) < 0 ==>
                forall k :: 0 <= k < TypeSize(types(parameter)) ==> value[k] == 0
      ensures forall k :: (if Known(types, parameter) then TypeSize(types(parameter)) else 0) <= k < value.Length ==>
          value[k] == old(value[k])
    {
      hide RowOf, First, Unique, IndexOk, Typed, AllUnique, TypeSize;
      RowSized(ee[..]);
      var block := SeekBlock(parameter, 0);
      var len := TypeSize(types(parameter));
      PiecesOfKnown(types, parameter);
      if !Known(types, parameter) {
        return false;
      }
      if block < 0 {
        Clear(value, len);
        return false;
      }
      var count := PieceCount(len);
      var pos, left, i := 0, len, 0;
      while i < count
        invariant Valid() && Row() == old(Row()) && 0 <= i <= count
        invariant pos == Min(len, DATA_LEN * i) && left == len - pos
        invariant Complete(Row(), parameter, i)
        invariant i == 0 ==> block == First(Row(), parameter, 0) >= 0
        invariant forall k :: 0 <= k < pos ==>
            value[k] == Row()[First(Row(), parameter, k / DATA_LEN)].data[k % DATA_LEN]
        invariant forall j :: len <= j < value.Length ==> value[j] == old(value[j])
      {
        if i != 0 {
          block := SeekBlock(parameter, i);
        }
        if block < 0 {
          return false;
        }
        var copyLen := if left > DATA_LEN then DATA_LEN else left;
        CopyData(value, pos, block, copyLen);
        PieceCopied(Row(), parameter, i, pos, copyLen);
        pos := pos + copyLen;
        left := left - copyLen;
        i := i + 1;
      }
      return true;
    }

    method Clear(value: array<byte>, n: nat)
      requires n <= value.Length
      modifies value
      ensures forall k :: 0 <= k < value.Length ==> value[k] == if k < n then 0 else old(value[k])
    {
      for k := 0 to n
        invariant forall j :: 0 <= j < value.Length ==> value[j] == if j < k then 0 else old(value[j])
      {
        value[k] := 0;
      }
    }

    method CopyData(value: array<byte>, pos: nat, block: nat, n: nat)
      requires Shape() && value != ee && block < TOTAL_BLOCKS && n <= DATA_LEN && pos + n <= value.Length
      requires WellSized(Row())
      modifies value
      ensures Row() == old(Row())
      ensures forall k :: 0 <= k < n ==> value[pos + k] == Row()[block].data[k]
      ensures forall k :: 0 <= k < value.Length && !(pos <= k < pos + n) ==> value[k] == old(value[k])
    {
      for k := 0 to n
        invariant ee[..] == old(ee[..])
        invariant forall j :: 0 <= j < k ==> value[pos + j] == Row()[block].data[j]
        invariant forall j :: 0 <= j < value.Length && !(pos <= j < pos + k) ==> value[j] == old(value[j])
      {
        value[pos + k] := ReadField(block, 4 + k);
      }
    }

    /** The next eight bytes of the value, or what is left of it and zeros. */
    method TakePiece(value: seq<byte>, pos: nat, left: nat, ghost i: nat, ghost len: nat)
      returns (copyLen: nat, data: seq<byte>)
      requires len <= |value| && pos == Min(len, DATA_LEN * i) && left == len - pos
      ensures copyLen == Min(left, DATA_LEN) && data == PieceData(value[..len], i)
    {
      copyLen := if left > DATA_LEN then DATA_LEN else left;
      data := value[pos..pos + copyLen] + seq(DATA_LEN - copyLen, k => 0);
      assert value[..len][pos..pos + copyLen] == value[pos..pos + copyLen];
      PieceBytes(value[..len], i, data);
    }

    /** One round of WriteParam: piece i goes in, unless no block is free. */
    method PutPiece(b: Block, ghost was: ConfigBlocks.Row, ghost s: Setting, ghost i: nat,
        ghost log0: seq<ConfigBlocks.Row>)
      returns (stored: bool)
      requires Valid() && i < PieceCount(|s.value|) && b == NewBlock(s, i)
      requires s.id != EMPTY && 0 <= types(s.id) == s.kind
      requires Row() == AfterSet(was, s, i) && After(was, Row(), s, i) && LoggedTorn(log0, log, was, s, types)
      modifies ee, indexId, indexBlock, this`indexInsert, this`log
      ensures Valid()
      ensures stored <==> FreeCount(old(Row())) > 0
      ensures !stored ==> Row() == old(Row()) && log == old(log)
      ensures stored ==>
                && Row() == AfterSet(was, s, i + 1) && After(was, Row(), s, i + 1)
                    && LoggedTorn(log0, log, was, s, types)
                && FreeCount(Row()) == FreeCount(old(Row())) - (if First(was, s.id, i) < 0 then 1 else 0)
    {
      hide RowOf, First, FirstFree, IndexOk, Typed, AllUnique, LoggedTorn, LoggedPiece, After, Replacing;
      ghost var row, log1 := Row(), log;
      stored := StorePiece(b);
      if stored {
        AfterMore(was, s, i);
        LogTorn(log0, log1, log, was, s, i, types);
        StoredFree(row, FirstFree(row), First(row, s.id, i), b);
        NotYet(was, row, s, i);
      }
    }

    /** Set a parameter. Pieces go in one by one until all are in or no block is free; a parameter without a type of
        known size has no pieces. The value is read as long as its type says. All pieces get in exactly if there are
        more free blocks than pieces missing before the last; so an overwrite takes one free block, and gives it
        back. */
    method WriteParam(parameter: byte, value: seq<byte>) returns (ghost done: nat)
      requires Valid() && parameter != EMPTY
      requires Known(types, parameter) ==> TypeSize(types(parameter)) <= |value|
      modifies ee, indexId, indexBlock, this`indexInsert, this`log
      ensures Valid()
      ensures !Known(types, parameter) ==> Row() == old(Row()) && log == old(log)
      ensures Known(types, parameter) ==>
                var s, was := SettingFor(types, parameter, value), old(Row());
                var count := PieceCount(|s.value|);
                && done <= count && Row() == AfterSet(was, s, done) && After(was, Row(), s, done)
                && (done == count <==> FreeCount(was) > Missing(was, parameter, count - 1))
                && (done < count ==> FreeCount(Row()) == 0)
                && FreeCount(Row()) == FreeCount(was) - Missing(was, parameter, done)
                && LoggedTorn(old(log), log, was, s, types)
                && (Complete(was, parameter, count) && FreeCount(was) > 0 ==>
                      done == count && FreeCount(Row()) == FreeCount(was))
    {
      hide RowOf, First, FirstFree, Unique, Patched, IndexOk, Typed, AllUnique, LoggedTorn, LoggedPiece, After,
          TypeSize,
        AfterSet, Missing, Complete, PieceData, FreeCount;
      var kind := types(parameter);
      var len := TypeSize(kind);
      var count := PieceCount(len);
      done := 0;
      ghost var s, was := Setting(parameter, 0, []), Row();
      if Known(types, parameter) {
        s := SettingFor(types, parameter, value);
      }
      PiecesOfKnown(types, parameter);
      AfterNone(was, s);
      LogNone(log, was, s, types);
      MissingNone(was, parameter);
      var pos, left, i := 0, len, 0;
      while i < count
        invariant Valid() && 0 <= i <= count && done == i
        invariant pos == Min(len, DATA_LEN * i) && left == len - pos
        invariant i == 0 ==> Row() == was && log == old(log)
        invariant Row() == AfterSet(was, s, i)
        invariant After(was, Row(), s, i) && LoggedTorn(old(log), log, was, s, types)
        invariant FreeCount(Row()) == FreeCount(was) - Missing(was, parameter, i)
        invariant i > 0 ==> FreeCount(was) > Missing(was, parameter, i - 1)
      {
        var copyLen, data := TakePiece(value, pos, left, i, len);
        var b := Block(parameter, kind, i, 255, data);
        var stored := PutPiece(b, was, s, i, old(log));
        if !stored {
          EnoughFree(was, parameter, i, count, FreeCount(was));
          return;
        }
        MissingMore(was, parameter, i);
        pos := pos + copyLen;
        left := left - copyLen;
        i := i + 1;
        done := i;
      }
      EnoughFree(was, parameter, count, count, FreeCount(was));
    }

    /** What a client sees: a parameter set and read again. If all pieces got in, the value comes back exactly if every
        piece survives, which values of up to 128 bytes always do; every other parameter says what it said before. */
    method SetThenGet(parameter: byte, value: seq<byte>, back: array<byte>) returns (ok: bool)
      requires Valid() && Known(types, parameter) && back != ee
      requires TypeSize(types(parameter)) <= |value| && TypeSize(types(parameter)) <= back.Length
      modifies ee, back, indexId, indexBlock, this`indexInsert, this`log
      ensures Valid() && WellSized(old(Row()))
      ensures forall id: byte, n: nat :: id != EMPTY && id != parameter ==>
          Piece(Row(), id, n) == Piece(old(Row()), id, n)
      ensures forall k :: TypeSize(types(parameter)) <= k < back.Length ==> back[k] == old(back[k])
      ensures var len, was := TypeSize(types(parameter)), old(Row());
              FreeCount(was) > Missing(was, parameter, PieceCount(len) - 1) ==>
                && ok
                && (back[..len] == value[..len] <==>
                    forall n :: 0 <= n && DATA_LEN * n < len ==> Survives(was, SettingFor(types, parameter, value), n))
                && (len <= DATA_LEN * FLAG_BITS ==> back[..len] == value[..len])
    {
      hide RowOf, IndexOk, Typed, AllUnique, LoggedTorn, After, AfterSet, Missing, TypeSize, Value, Survives, Complete;
      RowSized(ee[..]);
      ghost var was, s := Row(), SettingFor(types, parameter, value);
      ghost var done := WriteParam(parameter, value);
      ghost var now := Row();
      ok := ReadParam(parameter, back);
      SetReads(was, now, s, types, done, back[..|s.value|], ok);
    }
  }

  /** The n bytes of a value came back, and nothing else of the buffer was touched. */
  predicate CameBack(n: nat, value: seq<byte>, was: seq<byte>, now: seq<byte>) {
    && n <= |value| && n <= |was| == |now|
    && (forall k :: 0 <= k < n ==> now[k] == value[k])
    && forall k :: n <= k < |was| ==> now[k] == was[k]
  }

  /** Setting and getting each type: how many bytes of the caller's buffer it takes. */
  method SetThenGetEach(store: ConfigStore, parameter: byte, value: seq<byte>, back: array<byte>) returns (ok: bool)
    requires store.Valid() && parameter != EMPTY && back != store.ee && |value| >= 512 && back.Length >= 512
    requires 0 <= store.types(parameter) <= 10 || 40 <= store.types(parameter) <= 45
    requires FreeCount(store.Row()) > 64
    modifies store.ee, back, store.indexId, store.indexBlock, store`indexInsert, store`log
    ensures ok && WellSized(old(store.Row()))
    ensures store.types(parameter) == 0 ==> CameBack(0, value, old(back[..]), back[..])
    ensures store.types(parameter) in {1, 2, 3} ==> CameBack(1, value, old(back[..]), back[..])
    ensures store.types(parameter) in {4, 5} ==> CameBack(2, value, old(back[..]), back[..])
    ensures store.types(parameter) in {6, 7, 10, 44} ==> CameBack(4, value, old(back[..]), back[..])
    ensures store.types(parameter) == 41 ==> CameBack(6, value, old(back[..]), back[..])
    ensures store.types(parameter) in {8, 9, 42} ==> CameBack(8, value, old(back[..]), back[..])
    ensures store.types(parameter) == 43 ==> CameBack(16, value, old(back[..]), back[..])
    ensures store.types(parameter) == 40 ==> CameBack(128, value, old(back[..]), back[..])
    ensures store.types(parameter) == 45 ==>
              var s := Setting(parameter, 45, value[..512]);
              CameBack(512, value, old(back[..]), back[..])
              <==> forall n :: 0 <= n < 64 ==> Survives(old(store.Row()), s, n)
  {
    hide IndexOk, Typed, AllUnique, Missing, FreeCount, Survives, CameBack;
    ghost var was, before := store.Row(), back[..];
    SizesInNumbers(store.types(parameter));
    hide TypeSize;
    ghost var len := TypeSize(store.types(parameter));
    MissingFew(was, parameter, PieceCount(len) - 1);
    ok := store.SetThenGet(parameter, value, back);
    CameBackWhole(len, value, before, back[..]);
    assert SettingFor(store.types, parameter, value).value == value[..len];
  }

  lemma CameBackWhole(n: nat, value: seq<byte>, was: seq<byte>, now: seq<byte>)
    requires n <= |value| && n <= |was| == |now| && forall k :: n <= k < |was| ==> now[k] == was[k]
    ensures CameBack(n, value, was, now) <==> now[..n] == value[..n]
  {
    assert now[..n] == value[..n] ==> forall k :: 0 <= k < n ==> now[..n][k] == now[k] == value[..n][k] == value[k];
  }

  /** The sizes of all types in use. */
  lemma SizesInNumbers(kind: int)
    requires 0 <= kind <= 10 || 40 <= kind <= 45
    ensures TypeSize(kind) <= 512
    ensures PieceCount(TypeSize(kind))
            == if kind == 45 then 65 else if kind == 40 then 17 else if kind == 43 then 3
               else if kind in {8, 9, 42} then 2 else 1
    ensures kind == 0 <==> TypeSize(kind) == 0
    ensures kind in {1, 2, 3} <==> TypeSize(kind) == 1
    ensures kind in {4, 5} <==> TypeSize(kind) == 2
    ensures kind in {6, 7, 10, 44} <==> TypeSize(kind) == 4
    ensures kind == 41 <==> TypeSize(kind) == 6
    ensures kind in {8, 9, 42} <==> TypeSize(kind) == 8
    ensures kind == 43 <==> TypeSize(kind) == 16
    ensures kind == 40 <==> TypeSize(kind) == 128
    ensures kind == 45 <==> TypeSize(kind) == 512
  {
  }

  lemma {:induction false} MissingFew(row: Row, id: byte, k: nat)
    ensures Missing(row, id, k) <= k
  {
    if k > 0 {
      MissingFew(row, id, k - 1);
    }
  }

  /** What reading after setting gives, given what each of the two does. */
  lemma SetReads(was: Row, now: Row, s: Setting, types: Types, done: nat, back: seq<byte>, ok: bool)
    requires WellSized(was) && WellSized(now) && s.id != EMPTY && |s.value| <= 512 && AllUnique(was)
    requires done <= PieceCount(|s.value|) && After(was, now, s, done)
    requires ok <==> Complete(now, s.id, |s.value| / DATA_LEN + 1)
    requires ok ==> back == Value(now, s.id, |s.value|)
    ensures forall id: byte, n: nat :: id != EMPTY && id != s.id ==> Piece(now, id, n) == Piece(was, id, n)
    ensures done == PieceCount(|s.value|) ==>
              && ok
              && (back == s.value <==> forall n :: 0 <= n && DATA_LEN * n < |s.value| ==> Survives(was, s, n))
              && (|s.value| <= DATA_LEN * FLAG_BITS ==> back == s.value)
  {
    hide AfterSet, Value, Survives, Complete, AllUnique;
    forall id: byte, n: nat | id != EMPTY && id != s.id
      ensures Piece(now, id, n) == Piece(was, id, n)
    {
      assert PieceAfter(was, now, s, done, id, n);
    }
    if done == PieceCount(|s.value|) {
      GetAfterSet(was, now, s);
      if |s.value| <= DATA_LEN * FLAG_BITS {
        forall n | 0 <= n && DATA_LEN * n < |s.value|
          ensures Survives(was, s, n)
        {
          ShortSurvives(was, s, n);
        }
      }
    }
  }

  /** The next bytes of the value come from piece i. */
  lemma PieceCopied(row: Row, id: byte, i: nat, pos: nat, n: nat)
    requires n <= DATA_LEN && (n > 0 ==> pos == DATA_LEN * i)
    ensures forall k :: pos <= k < pos + n ==> k / DATA_LEN == i && k % DATA_LEN == k - pos
  {
    forall k | pos <= k < pos + n
      ensures k / DATA_LEN == i && k % DATA_LEN == k - pos
    {
      DivModUnique(k, DATA_LEN, i, k - pos);
    }
  }

  lemma LogNone(log: seq<Row>, was: Row, s: Setting, types: Types)
    ensures LoggedTorn(log, log, was, s, types)
  {
  }

  lemma MissingNone(row: Row, id: byte)
    ensures Missing(row, id, 0) == 0
  {
  }

  lemma MissingMore(row: Row, id: byte, i: nat)
    ensures Missing(row, id, i + 1) == Missing(row, id, i) + (if First(row, id, i) < 0 then 1 else 0)
  {
  }

  /** Where storing stopped, in terms of the blocks free before. */
  lemma EnoughFree(row: Row, id: byte, i: nat, count: nat, free: nat)
    requires i <= count
    ensures i < count && free <= Missing(row, id, i) ==> free <= Missing(row, id, count - 1)
    ensures Complete(row, id, count) ==>
              Missing(row, id, i) == 0 && (count > 0 ==> Missing(row, id, count - 1) == 0)
  {
    if i < count {
      MissingGrows(row, id, i, count - 1);
    }
    if Complete(row, id, count) {
      NothingMissing(row, id, i, count);
      if count > 0 {
        NothingMissing(row, id, count - 1, count);
      }
    }
  }
}
