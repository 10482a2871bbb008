/** A run of the parameter store in which a value does not read back: the clean-up keeps duplicates of late pieces. */
module ConfigStale {
  import opened Bytes
  import opened ConfigBlocks

  const LONG: nat := 512
  const PIECES: nat := 65

  // ---- how the pieces of one long value move ----

  /** Where the pieces are, and at the end the first free block. */
  type Spots = seq<nat>

  /** Piece k is in block u[k] and nowhere else, but for an old copy of piece 16 in block `spare` (-1: none). */
  predicate Placed(row: Row, id: byte, u: Spots, spare: int)
    requires |u| == PIECES + 1
  {
    forall k, j :: 0 <= k < PIECES && 0 <= j < |row| ==>
      (Holds(row[j], id, k) <==> j == u[k] || (k == FLAG_BITS && j == spare))
  }

  /** The store holds one long value, all below block `top`, where one block is free. */
  predicate Ring(row: Row, id: byte, u: Spots, spare: int, top: nat) {
    && id != EMPTY && |u| == PIECES + 1 && top <= |row| && -1 <= spare < |row|
    && (forall i :: 0 <= i <= PIECES ==> u[i] < top && u[i] != spare)
    && (forall i, j :: 0 <= i < j <= PIECES ==> u[i] != u[j])
    && Placed(row, id, u, spare)
    && (forall j :: 0 <= j < top ==> (row[j].id == EMPTY <==> j == u[PIECES]))
  }

  /** The new copy of piece k goes to the free block, and its old block becomes free. */
  function Moved(u: Spots, k: nat): (v: Spots)
    requires |u| == PIECES + 1 && k < PIECES
    ensures |v| == PIECES + 1
  {
    u[k := u[PIECES]][PIECES := u[k]]
  }

  lemma StoreMoves(row: Row, u: Spots, spare: int, top: nat, s: Setting, k: nat)
    requires Ring(row, s.id, u, spare, top) && k < PIECES
    requires k == FLAG_BITS && spare >= 0 ==> u[k] < spare
    ensures FirstFree(row) == u[PIECES] && First(row, s.id, k) == u[k]
    ensures var now := Store(row, NewBlock(s, k));
            && Ring(now, s.id, Moved(u, k), spare, top) && now[u[PIECES]] == NewBlock(s, k)
            && forall j :: 0 <= j < |row| && j != u[k] && j != u[PIECES] ==> now[j] == row[j]
  {
    FirstFreeIs(row, u[PIECES]);
    FirstIs(row, s.id, k, u[k]);
  }

  /** Where things are when the first k pieces of a setting are in. */
  function Turned(u: Spots, k: nat): (v: Spots)
    requires |u| == PIECES + 1 && k <= PIECES
    ensures |v| == PIECES + 1
  {
    if k == 0 then u else Moved(Turned(u, k - 1), k - 1)
  }

  /** Each piece takes the place of the one before it. */
  lemma {:induction false} TurnedAt(u: Spots, k: nat, i: nat)
    requires |u| == PIECES + 1 && k <= PIECES && i <= PIECES
    ensures Turned(u, k)[i] ==
            if i == PIECES then (if k == 0 then u[PIECES] else u[k - 1])
            else if i >= k then u[i]
            else if i == 0 then u[PIECES] else u[i - 1]
  {
    if k > 0 {
      TurnedAt(u, k - 1, i);
      TurnedAt(u, k - 1, k - 1);
      TurnedAt(u, k - 1, PIECES);
    }
  }

  /** The first k pieces are new, the others and what is above the ring are untouched. */
  predicate PartlySet(row: Row, now: Row, u: Spots, spare: int, top: nat, s: Setting, k: nat)
    requires |u| == PIECES + 1 && k <= PIECES && |now| == |row|
  {
    && Ring(now, s.id, Turned(u, k), spare, top)
    && (forall n :: 0 <= n < k ==> now[Turned(u, k)[n]] == NewBlock(s, n))
    && (forall n :: k <= n < PIECES ==> u[n] < |row| && now[u[n]] == row[u[n]])
    && (forall j :: 0 <= j < |row| && (j >= top || j == spare) ==> now[j] == row[j])
  }

  /** Setting the value turns the ring by one place. */
  lemma {:induction false} SetTurns(row: Row, u: Spots, spare: int, top: nat, s: Setting, k: nat)
    requires Ring(row, s.id, u, spare, top) && k <= PIECES && (spare >= 0 ==> u[FLAG_BITS] < spare)
    ensures PartlySet(row, AfterSet(row, s, k), u, spare, top, s, k)
  {
    if k > 0 {
      SetTurns(row, u, spare, top, s, k - 1);
      hide Ring, PartlySet;
      SetTurnsMore(row, AfterSet(row, s, k - 1), u, spare, top, s, k - 1);
    }
  }

  lemma SetTurnsMore(row: Row, was: Row, u: Spots, spare: int, top: nat, s: Setting, k: nat)
    requires |u| == PIECES + 1 && k < PIECES && (spare >= 0 ==> u[FLAG_BITS] < spare) && |was| == |row|
    requires PartlySet(row, was, u, spare, top, s, k)
    ensures PartlySet(row, Store(was, NewBlock(s, k)), u, spare, top, s, k + 1)
  {
    var now, v := Store(was, NewBlock(s, k)), Turned(u, k);
    TurnedAt(u, k, k);
    StoreMoves(was, v, spare, top, s, k);
    assert Turned(u, k + 1) == Moved(v, k);
    hide Store, First, FirstFree, NewBlock, Placed, Turned;
    forall n | k < n < PIECES
      ensures now[u[n]] == row[u[n]]
    {
      TurnedAt(u, k, n);
    }
  }

  /** There is always a free block for the next piece. */
  lemma SetFits(row: Row, u: Spots, spare: int, top: nat, s: Setting, k: nat)
    requires Ring(row, s.id, u, spare, top) && k <= PIECES && (spare >= 0 ==> u[FLAG_BITS] < spare)
    ensures FirstFree(AfterSet(row, s, k)) >= 0
  {
    SetTurns(row, u, spare, top, s, k);
    hide AfterSet, FirstFree, Turned;
    FirstFreeIs(AfterSet(row, s, k), Turned(u, k)[PIECES]);
  }

  lemma {:induction false} SetAfter(row: Row, u: Spots, spare: int, top: nat, s: Setting, k: nat)
    requires Ring(row, s.id, u, spare, top) && k <= PIECES && |s.value| == LONG
    requires spare >= 0 ==> u[FLAG_BITS] < spare
    ensures After(row, AfterSet(row, s, k), s, k)
  {
    hide After, AfterSet, FirstFree;
    if k == 0 {
      AfterNone(row, s);
    } else {
      SetAfter(row, u, spare, top, s, k - 1);
      SetFits(row, u, spare, top, s, k - 1);
      AfterMore(row, s, k - 1);
    }
  }

  // ---- the store from the beginning ----

  function Unused(): Block { Block(EMPTY, EMPTY, EMPTY, EMPTY, seq(DATA_LEN, k => 255)) }

  function Blank(): Row { seq(TOTAL_BLOCKS, j => Unused()) }

  /** The first value goes into the first blocks. */
  lemma {:induction false} FirstSet(s: Setting, k: nat)
    requires s.id != EMPTY && k <= PIECES
    ensures forall j :: 0 <= j < TOTAL_BLOCKS ==>
              AfterSet(Blank(), s, k)[j] == if j < k then NewBlock(s, j) else Unused()
  {
    if k > 0 {
      FirstSet(s, k - 1);
      FirstFreeIs(AfterSet(Blank(), s, k - 1), k - 1);
      hide PieceData, FirstFree;
    }
  }

  function InOrder(): Spots { seq(PIECES + 1, i => i) }

  function Stored(s: Setting): (row: Row)
    ensures |row| == TOTAL_BLOCKS
  {
    AfterSet(Blank(), s, PIECES)
  }

  lemma StoredRing(s: Setting)
    requires s.id != EMPTY && |s.value| == LONG
    ensures Ring(Stored(s), s.id, InOrder(), -1, PIECES + 1)
    ensures Stored(s)[FLAG_BITS] == NewBlock(s, FLAG_BITS)
    ensures forall j :: PIECES < j < TOTAL_BLOCKS ==> Stored(s)[j] == Unused()
  {
    FirstSet(s, PIECES);
    hide AfterSet;
  }

  /** The power is cut while the value is set again: piece 16 is in, its old block not yet erased. */
  function CutShort(a: Setting, b: Setting): (row: Row)
    ensures |row| == TOTAL_BLOCKS
  {
    AfterSet(Stored(a), b, FLAG_BITS)[FLAG_BITS - 1 := NewBlock(b, FLAG_BITS)]
  }

  function CutSpots(): (u: Spots)
    ensures |u| == PIECES + 1
  {
    seq(PIECES + 1, i => if i == 0 then PIECES else if i <= FLAG_BITS then i - 1 else if i < PIECES then i
                         else PIECES + 1)
  }

  /** Before piece 16 is stored. */
  lemma BeforeTheCut(a: Setting, b: Setting)
    requires a.id == b.id != EMPTY && |a.value| == |b.value| == LONG
    ensures var row := AfterSet(Stored(a), b, FLAG_BITS);
            && Ring(row, b.id, Turned(InOrder(), FLAG_BITS), -1, PIECES + 1) && After(Stored(a), row, b, FLAG_BITS)
            && row[FLAG_BITS] == NewBlock(a, FLAG_BITS) && row[PIECES + 1] == Unused()
  {
    StoredRing(a);
    SetTurns(Stored(a), InOrder(), -1, PIECES + 1, b, FLAG_BITS);
    SetAfter(Stored(a), InOrder(), -1, PIECES + 1, b, FLAG_BITS);
    assert InOrder()[FLAG_BITS] == FLAG_BITS;
  }

  lemma TurnedOrder(i: nat)
    requires i <= PIECES
    ensures Turned(InOrder(), FLAG_BITS)[i] ==
            if i == PIECES then FLAG_BITS - 1 else if i >= FLAG_BITS then i else if i == 0 then PIECES else i - 1
  {
    TurnedAt(InOrder(), FLAG_BITS, i);
  }

  lemma CutRing(a: Setting, b: Setting)
    requires a.id == b.id != EMPTY && |a.value| == |b.value| == LONG
    ensures Ring(CutShort(a, b), b.id, CutSpots(), FLAG_BITS, PIECES + 2)
    ensures CutShort(a, b)[FLAG_BITS] == NewBlock(a, FLAG_BITS)
    ensures FirstFree(AfterSet(Stored(a), b, FLAG_BITS)) == FLAG_BITS - 1
  {
    var row, u := AfterSet(Stored(a), b, FLAG_BITS), Turned(InOrder(), FLAG_BITS);
    BeforeTheCut(a, b);
    hide AfterSet, Turned, InOrder, After, PieceData, Placed, Stored;
    forall i | 0 <= i <= PIECES
      ensures u[i] == if i == PIECES then FLAG_BITS - 1 else if i >= FLAG_BITS then i
                      else if i == 0 then PIECES else i - 1
    {
      TurnedOrder(i);
    }
    FirstFreeIs(row, FLAG_BITS - 1);
    CutPlaced(row, u, b);
  }

  lemma CutPlaced(row: Row, u: Spots, b: Setting)
    requires |u| == PIECES + 1 && Placed(row, b.id, u, -1) && u[PIECES] < |row| && b.id != EMPTY
    requires forall i :: 0 <= i <= PIECES ==> u[i] == if i == PIECES then FLAG_BITS - 1 else if i >= FLAG_BITS then i
                                                      else if i == 0 then PIECES else i - 1
    requires row[u[PIECES]].id == EMPTY
    ensures Placed(row[u[PIECES] := NewBlock(b, FLAG_BITS)], b.id, CutSpots(), FLAG_BITS)
  {
    var now, v := row[u[PIECES] := NewBlock(b, FLAG_BITS)], CutSpots();
    forall k, j | 0 <= k < PIECES && 0 <= j < |now|
      ensures Holds(now[j], b.id, k) <==> j == v[k] || (k == FLAG_BITS && j == FLAG_BITS)
    {
      assert v[k] == if k == 0 then PIECES else if k <= FLAG_BITS then k - 1 else k;
      assert u[k] == if k >= FLAG_BITS then k else if k == 0 then PIECES else k - 1;
      if j != u[PIECES] {
        assert Holds(row[j], b.id, k) <==> j == u[k];
      }
    }
    assert Placed(now, b.id, v, FLAG_BITS);
  }

  // ---- what boot makes of it ----

  /** Every block that is in use belongs to this parameter. */
  predicate OnlyOne(row: Row, s: Setting) {
    forall j :: 0 <= j < |row| ==>
      && |row[j].data| == DATA_LEN
      && (row[j].id != EMPTY ==> row[j].id == s.id && row[j].kind == s.kind && row[j].num < PIECES)
  }

  lemma {:induction false} SetOnlyOne(row: Row, s: Setting, k: nat)
    requires OnlyOne(row, s) && k <= PIECES
    ensures OnlyOne(AfterSet(row, s, k), s)
  {
    if k > 0 {
      SetOnlyOne(row, s, k - 1);
      hide AfterSet, First, FirstFree, PieceData;
      StoreOnlyOne(AfterSet(row, s, k - 1), s, k - 1);
      AfterSetStep(row, s, k);
    }
  }

  lemma AfterSetStep(row: Row, s: Setting, k: nat)
    requires 0 < k <= 256
    ensures AfterSet(row, s, k) == Store(AfterSet(row, s, k - 1), NewBlock(s, k - 1))
  {
  }

  lemma StoreOnlyOne(row: Row, s: Setting, k: nat)
    requires OnlyOne(row, s) && k < PIECES
    ensures OnlyOne(Store(row, NewBlock(s, k)), s)
  {
  }

  /** Clean-up finds nothing wrong: the only piece in two blocks has no flag bit. */
  lemma NothingToClean(row: Row, u: Spots, spare: int, top: nat, s: Setting, types: Types)
    requires Ring(row, s.id, u, spare, top) && OnlyOne(row, s) && types(s.id) == s.kind >= 0
    ensures Typed(row, types) && Cleaned(row, types) == row && AllUnique(row)
  {
    forall j | 0 <= j < |row|
      ensures !Doomed(row, types, j)
    {
      if row[j].id != EMPTY && row[j].num < FLAG_BITS {
        assert j == u[row[j].num];
      }
    }
    CleanUnique(row, types);
  }

  // ---- more sets ----

  /** The row after the settings in `cs`, each stored whole. */
  function AfterSets(row: Row, cs: seq<Setting>): (r: Row)
    ensures |r| == |row|
    decreases |cs|
  {
    if cs == [] then row else AfterSet(AfterSets(row, cs[..|cs| - 1]), cs[|cs| - 1], PIECES)
  }

  function Around(u: Spots, m: nat): (v: Spots)
    requires |u| == PIECES + 1
    ensures |v| == PIECES + 1
  {
    if m == 0 then u else Turned(Around(u, m - 1), PIECES)
  }

  lemma {:induction false} AroundAt(u: Spots, m: nat, i: nat)
    requires |u| == PIECES + 1 && m <= PIECES && i <= PIECES
    ensures Around(u, m)[i] == if i >= m then u[i - m] else u[PIECES + 1 + i - m]
  {
    if m > 0 {
      TurnedAt(Around(u, m - 1), PIECES, i);
      if i == 0 {
        AroundAt(u, m - 1, PIECES);
      } else {
        AroundAt(u, m - 1, i - 1);
      }
    }
  }

  /** A setting of the long value. */
  predicate Sets(s: Setting, c: Setting) { c.id == s.id != EMPTY && c.kind == s.kind && |c.value| == LONG }

  lemma {:induction false} SetsTurn(row: Row, s: Setting, cs: seq<Setting>)
    requires Ring(row, s.id, CutSpots(), FLAG_BITS, PIECES + 2) && OnlyOne(row, s)
    requires |cs| <= FLAG_BITS && forall i :: 0 <= i < |cs| ==> Sets(s, cs[i])
    ensures var now := AfterSets(row, cs);
            && Ring(now, s.id, Around(CutSpots(), |cs|), FLAG_BITS, PIECES + 2) && OnlyOne(now, s)
            && now[FLAG_BITS] == row[FLAG_BITS]
            && (cs != [] ==> forall n :: 0 <= n < PIECES ==>
                  now[Around(CutSpots(), |cs|)[n]] == NewBlock(cs[|cs| - 1], n))
  {
    if cs != [] {
      var m := |cs| - 1;
      var was, c := AfterSets(row, cs[..m]), cs[m];
      SetsTurn(row, s, cs[..m]);
      AroundAt(CutSpots(), m, FLAG_BITS);
      SetTurns(was, Around(CutSpots(), m), FLAG_BITS, PIECES + 2, c, PIECES);
      SetOnlyOne(was, c, PIECES);
    }
  }

  /** Pieces are read from the lower of two copies. */
  lemma ReadsFrom(row: Row, id: byte, u: Spots, spare: nat, top: nat, n: nat)
    requires Ring(row, id, u, spare, top) && n < PIECES
    ensures First(row, id, n) == if n == FLAG_BITS && spare < u[n] then spare else u[n]
  {
    FirstIs(row, id, n, if n == FLAG_BITS && spare < u[n] then spare else u[n]);
  }

  /** A value is read back exactly if each of its pieces is. */
  lemma ValueOfPieces(row: Row, id: byte, value: seq<byte>)
    requires |value| == LONG && WellSized(row) && Complete(row, id, PIECES)
    ensures Value(row, id, LONG) == value
            <==> forall n :: 0 <= n < PIECES - 1 ==> Piece(row, id, n) == Some(PieceData(value, n))
  {
    var v := Value(row, id, LONG);
    hide Value, First;
    forall n | 0 <= n < PIECES - 1
      ensures v == value ==> Piece(row, id, n) == Some(PieceData(value, n))
    {
      ValueSlice(row, id, LONG, n);
      PieceSlice(value, n);
      var d, p := row[First(row, id, n)].data, PieceData(value, n);
      assert d[..DATA_LEN] == d && p[..DATA_LEN] == p;
    }
    if forall n :: 0 <= n < PIECES - 1 ==> Piece(row, id, n) == Some(PieceData(value, n)) {
      forall i | 0 <= i < LONG
        ensures v[i] == value[i]
      {
        var n, k := i / DATA_LEN, i % DATA_LEN;
        ValueSlice(row, id, LONG, n);
        PieceSlice(value, n);
        assert v[DATA_LEN * n..DATA_LEN * n + DATA_LEN][k] == value[DATA_LEN * n..DATA_LEN * n + DATA_LEN][k];
      }
    }
  }

  lemma CutIsLegal(a: Setting, b: Setting, types: Types)
    requires Sets(a, a) && Sets(a, b) && types(a.id) == a.kind >= 0
    ensures Torn(Stored(a), CutShort(a, b), b, types) && OnlyOne(CutShort(a, b), a)
  {
    var row := AfterSet(Stored(a), b, FLAG_BITS);
    SetOnlyOne(Blank(), a, PIECES);
    SetOnlyOne(Stored(a), b, FLAG_BITS);
    BeforeTheCut(a, b);
    CutRing(a, b);
    hide Ring, AfterSet, After, Stored, First, FirstFree, PieceData, Torn;
    assert Replacing(row, FLAG_BITS - 1, First(row, b.id, FLAG_BITS), NewBlock(b, FLAG_BITS));
    CutTorn(Stored(a), b, FLAG_BITS, CutShort(a, b), types);
  }

  lemma Afterwards(a: Setting, b: Setting, cs: seq<Setting>, types: Types)
    requires Sets(a, a) && Sets(a, b) && types(a.id) == a.kind >= 0
    requires |cs| <= FLAG_BITS && forall i :: 0 <= i < |cs| ==> Sets(a, cs[i])
    ensures var now := AfterSets(CutShort(a, b), cs);
            && Typed(now, types) && Cleaned(now, types) == now && AllUnique(now) && FreeCount(now) > 0
            && WellSized(now)
  {
    var u := Around(CutSpots(), |cs|);
    CutIsLegal(a, b, types);
    CutRing(a, b);
    SetsTurn(CutShort(a, b), a, cs);
    hide Torn, CutShort, AfterSets, Around, Typed, AllUnique, FreeCount, PieceData, Placed, Stored;
    NothingToClean(AfterSets(CutShort(a, b), cs), u, FLAG_BITS, PIECES + 2, a, types);
    FreeCountSome(AfterSets(CutShort(a, b), cs), u[PIECES]);
  }

  /** Piece n after the last of the settings. */
  lemma LastPieces(a: Setting, b: Setting, cs: seq<Setting>, n: nat)
    requires Sets(a, a) && Sets(a, b) && OnlyOne(CutShort(a, b), a)
    requires 0 < |cs| <= FLAG_BITS && (forall i :: 0 <= i < |cs| ==> Sets(a, cs[i])) && n < PIECES
    ensures var now, c := AfterSets(CutShort(a, b), cs), cs[|cs| - 1];
            && First(now, a.id, n) >= 0
            && Piece(now, a.id, n)
               == Some(PieceData(if |cs| == FLAG_BITS && n == FLAG_BITS then a.value else c.value, n))
  {
    CutRing(a, b);
    SetsTurn(CutShort(a, b), a, cs);
    AroundAt(CutSpots(), |cs|, FLAG_BITS);
    hide CutShort, AfterSets, Around, PieceData, Placed, First;
    ReadsFrom(AfterSets(CutShort(a, b), cs), a.id, Around(CutSpots(), |cs|), FLAG_BITS, PIECES + 2, n);
  }

  /** A blank store, set to a; set to b, with the power cut in piece 16; then set to one value after the other, each
      stored whole, whether booted in between or not. Each of them reads back, except the sixteenth: its piece 16 reads
      back as that of a. */
  lemma StaleRead(a: Setting, b: Setting, cs: seq<Setting>, types: Types)
    requires Sets(a, a) && Sets(a, b) && types(a.id) == a.kind == 45
    requires 0 < |cs| <= 16 && forall i :: 0 <= i < |cs| ==> Sets(a, cs[i])
    ensures TypeSize(45) == LONG && PieceCount(LONG) == PIECES && LONG == 512
    ensures Torn(Stored(a), CutShort(a, b), b, types)
    ensures var now, c := AfterSets(CutShort(a, b), cs), cs[|cs| - 1];
            && Typed(now, types) && Cleaned(now, types) == now && AllUnique(now) && FreeCount(now) > 0
            && WellSized(now) && Complete(now, a.id, PIECES)
            && (Value(now, a.id, LONG) == c.value
                <==> |cs| < 16 || PieceData(c.value, 16) == PieceData(a.value, 16))
  {
    var now, c := AfterSets(CutShort(a, b), cs), cs[|cs| - 1];
    CutIsLegal(a, b, types);
    Afterwards(a, b, cs, types);
    hide Torn, CutShort, AfterSets, Cleaned, Typed, AllUnique, WellSized, FreeCount, PieceData, Stored, First, Piece,
        OnlyOne;
    forall n | 0 <= n < PIECES
      ensures First(now, a.id, n) >= 0
      ensures Piece(now, a.id, n) ==
          Some(PieceData(if |cs| == FLAG_BITS && n == FLAG_BITS then a.value else c.value, n))
    {
      LastPieces(a, b, cs, n);
    }
    ValueOfPieces(now, a.id, c.value);
  }
}
