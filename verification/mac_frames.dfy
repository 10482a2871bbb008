/** Radio frames: variable address fields, protocol byte, optional authentication; layout stated on values. */
module MacFrames {
  import opened Bytes

  const MODE_NONE: nat := 0
  const MODE_SHORT: nat := 2
  const MODE_LONG: nat := 3
  const PAN_BROADCAST: nat := 0xffff
  const AUTH_TAG_SIZE: nat := 12
  const COUNTER_SIZE: nat := 4
  const FCS_SIZE: nat := 2
  const MAX_FRAME_SIZE: nat := 127
  const SECURITY_AUTH: nat := 0x80
  const FCF_TYPE_DATA: nat := 1
  const FCF_ACK_REQ: nat := 0x20
  const FCF_INTRA_PAN: nat := 0x40

  datatype Addr = Addr(destAddr: nat, destMode: nat, destPan: nat, sourceAddr: nat, sourceMode: nat, sourcePan: nat)

  datatype Options = Options(ack: bool, secure: bool, protocol: nat)

  predicate IsMode(m: nat) { m == MODE_NONE || m == MODE_SHORT || m == MODE_LONG }

  // ---- little-endian numbers ----

  function Pow256(k: nat): (r: nat)
    ensures r >= 1
  {
    if k == 0 then 1 else 256 * Pow256(k - 1)
  }

  function ToBytes(n: nat, k: nat): (r: seq<byte>)
    ensures |r| == k
    decreases k
  {
    if k == 0 then [] else [n % 256] + ToBytes(n / 256, k - 1)
  }

  function FromBytes(s: seq<byte>): nat {
    if s == [] then 0
    else
      var b: int := s[0];
      b + 256 * FromBytes(s[1..])
  }

  lemma {:induction false} BytesRoundTrip(n: nat, k: nat)
    requires n < Pow256(k)
    ensures FromBytes(ToBytes(n, k)) == n
    decreases k
  {
    if k > 0 {
      BytesRoundTrip(n / 256, k - 1);
      assert ToBytes(n, k)[1..] == ToBytes(n / 256, k - 1);
    }
  }

  // ---- building ----

  function AddrLen(mode: nat): nat {
    if mode == MODE_SHORT then 2 else if mode == MODE_LONG then 8 else 0
  }

  /** Length of everything but the payload, frame check sequence included. */
  function HeaderLength(a: Addr, o: Options): nat {
    6 + (if a.destMode == MODE_SHORT then 4 else if a.destMode == MODE_LONG then 10 else 0)
    + AddrLen(a.sourceMode) + (if o.secure then COUNTER_SIZE + AUTH_TAG_SIZE else 0)
  }

  /** Frame type, ack request, same-network flag, and the two address modes at bits 10 and 14. */
  function FrameControl(a: Addr, o: Options): nat {
    FCF_TYPE_DATA + (if o.ack then FCF_ACK_REQ else 0) + FCF_INTRA_PAN + a.destMode * 1024 + a.sourceMode * 16384
  }

  function DestFields(a: Addr): seq<byte> {
    if a.destMode == MODE_NONE then [] else ToBytes(a.destPan, 2) + ToBytes(a.destAddr, AddrLen(a.destMode))
  }

  /** The source network is never sent. */
  function SourceFields(a: Addr): seq<byte> { ToBytes(a.sourceAddr, AddrLen(a.sourceMode)) }

  /** The security flag is the top bit, set on top of whatever protocol number is given. */
  function ProtocolByte(o: Options): byte
    requires o.protocol < 256
  {
    if o.secure && o.protocol < SECURITY_AUTH then o.protocol + SECURITY_AUTH else o.protocol
  }

  function CounterField(o: Options, counter: nat): seq<byte> {
    if o.secure then ToBytes(counter, COUNTER_SIZE) else []
  }

  function HeaderPart(a: Addr, o: Options, sequence: byte, counter: nat): seq<byte>
    requires o.protocol < 256
  {
    ToBytes(FrameControl(a, o), 2) + [sequence] + DestFields(a) + SourceFields(a) + [ProtocolByte(o)]
    + CounterField(o, counter)
  }

  /** Header and payload: the part of a frame that is signed. */
  function SignedPart(a: Addr, o: Options, sequence: byte, counter: nat, data: seq<byte>): seq<byte>
    requires o.protocol < 256
  {
    HeaderPart(a, o, sequence, counter) + data
  }

  /** Authentication tags are whatever function of the signed bytes the node computes. */
  type Signer = seq<byte> -> seq<byte>

  ghost predicate TagsFit(sign: Signer) {
    forall s :: |sign(s)| == AUTH_TAG_SIZE
  }

  /** A frame as built; the radio appends the two bytes of the frame check sequence. */
  function Frame(a: Addr, o: Options, sequence: byte, counter: nat, data: seq<byte>, sign: Signer): seq<byte>
    requires o.protocol < 256
  {
    var s := SignedPart(a, o, sequence, counter, data);
    s + (if o.secure then sign(s) else [])
  }

  lemma FrameLength(a: Addr, o: Options, sequence: byte, counter: nat, data: seq<byte>, sign: Signer)
    requires o.protocol < 256 && IsMode(a.destMode) && IsMode(a.sourceMode) && TagsFit(sign)
    ensures |Frame(a, o, sequence, counter, data, sign)| + FCS_SIZE == HeaderLength(a, o) + |data|
    ensures |SignedPart(a, o, sequence, counter, data)|
            == HeaderLength(a, o) + |data| - FCS_SIZE - (if o.secure then AUTH_TAG_SIZE else 0)
  {
  }

  // ---- parsing ----

  function DestMode(fcf: nat): nat { fcf / 1024 % 4 }

  function SourceMode(fcf: nat): nat { fcf / 16384 % 4 }

  predicate IntraPan(fcf: nat) { fcf / 64 % 2 == 1 }

  function DestLen(fcf: nat): nat { if DestMode(fcf) == MODE_NONE then 0 else 2 + AddrLen(DestMode(fcf)) }

  function SourceLen(fcf: nat): nat { (if IntraPan(fcf) then 0 else 2) + AddrLen(SourceMode(fcf)) }

  function Control(frame: seq<byte>): nat
    requires |frame| >= 2
  {
    FromBytes(frame[..2])
  }

  /** Long enough for the address fields its control field announces, and the protocol byte. */
  predicate HasAddress(frame: seq<byte>) {
    |frame| >= 3 && 3 + DestLen(Control(frame)) + SourceLen(Control(frame)) < |frame|
  }

  function AddressEnd(frame: seq<byte>): nat
    requires HasAddress(frame)
  {
    3 + DestLen(Control(frame)) + SourceLen(Control(frame))
  }

  function KnownMode(m: nat): nat { if m == MODE_SHORT || m == MODE_LONG then m else MODE_NONE }

  /** Absent fields read as zero. */
  function ParsedAddr(frame: seq<byte>): Addr
    requires HasAddress(frame)
  {
    var fcf := Control(frame);
    var d, s := AddrLen(DestMode(fcf)), AddrLen(SourceMode(fcf));
    var p := 3 + DestLen(fcf) + (if IntraPan(fcf) then 0 else 2);
    Addr(if DestMode(fcf) == MODE_NONE then 0 else FromBytes(frame[5..5 + d]),
         KnownMode(DestMode(fcf)),
         if DestMode(fcf) == MODE_NONE then 0 else FromBytes(frame[3..5]),
         FromBytes(frame[p..p + s]),
         KnownMode(SourceMode(fcf)),
         if IntraPan(fcf) then 0 else FromBytes(frame[p - 2..p]))
  }

  /** What the receiver makes of a frame; for a secured one, what it hands to the authentication check. */
  datatype Received = Received(addr: Addr, protocol: nat, secure: bool, counter: nat, covered: seq<byte>,
      tag: seq<byte>,
                               payload: seq<byte>)

  /** Secured frames also hold a counter and a tag. */
  predicate Complete(frame: seq<byte>) {
    && HasAddress(frame)
    && var p := AddressEnd(frame);
       p + 1 + FCS_SIZE + (if frame[p] >= SECURITY_AUTH then COUNTER_SIZE + AUTH_TAG_SIZE else 0) <= |frame|
  }

  function Parsed(frame: seq<byte>): Received
    requires Complete(frame)
  {
    var p := AddressEnd(frame);
    if frame[p] >= SECURITY_AUTH then
      var e := |frame| - FCS_SIZE - AUTH_TAG_SIZE;
      Received(ParsedAddr(frame), frame[p] % 16, true, FromBytes(frame[p + 1..p + 1 + COUNTER_SIZE]),
               frame[..e], frame[e..e + AUTH_TAG_SIZE], frame[p + 1 + COUNTER_SIZE..e])
    else
      Received(ParsedAddr(frame), frame[p] % 16, false, 0, [], [], frame[p + 1..|frame| - FCS_SIZE])
  }

  // ---- round trip ----

  /** The address as it can be carried: a field whose mode is "none" is absent, and so is the source network. */
  function Carried(a: Addr): Addr {
    Addr(if a.destMode == MODE_NONE then 0 else a.destAddr, a.destMode,
        if a.destMode == MODE_NONE then 0 else a.destPan,
         if a.sourceMode == MODE_NONE then 0 else a.sourceAddr, a.sourceMode, 0)
  }

  predicate AddrOk(a: Addr) {
    && IsMode(a.destMode) && IsMode(a.sourceMode)
    && (a.destMode != MODE_NONE ==> a.destPan < Pow256(2) && a.destAddr < Pow256(AddrLen(a.destMode)))
    && (a.sourceMode != MODE_NONE ==> a.sourceAddr < Pow256(AddrLen(a.sourceMode)))
  }

  lemma ControlRoundTrip(a: Addr, o: Options)
    requires IsMode(a.destMode) && IsMode(a.sourceMode)
    ensures FromBytes(ToBytes(FrameControl(a, o), 2)) == FrameControl(a, o)
    ensures DestMode(FrameControl(a, o)) == a.destMode && SourceMode(FrameControl(a, o)) == a.sourceMode
    ensures IntraPan(FrameControl(a, o))
  {
    assert Pow256(2) == 65536 by { assert Pow256(1) == 256; }
    BytesRoundTrip(FrameControl(a, o), 2);
  }

  lemma HeaderLayout(a: Addr, o: Options, sequence: byte, counter: nat)
    requires o.protocol < 256
    ensures var h := HeaderPart(a, o, sequence, counter);
            var q := 3 + |DestFields(a)|;
            var p := q + |SourceFields(a)|;
            && |h| == p + 1 + |CounterField(o, counter)|
            && h[0..2] == ToBytes(FrameControl(a, o), 2) && h[2] == sequence
            && h[3..q] == DestFields(a) && h[q..p] == SourceFields(a) && h[p] == ProtocolByte(o)
            && h[p + 1..|h|] == CounterField(o, counter)
  {
    hide ToBytes, FrameControl, DestFields, SourceFields, CounterField, ProtocolByte;
  }

  /** The pieces of a frame, in order, at their places. */
  lemma Layout(a: Addr, o: Options, sequence: byte, counter: nat, data: seq<byte>, rest: seq<byte>)
    requires o.protocol < 256 && IsMode(a.destMode) && IsMode(a.sourceMode)
    ensures var f := SignedPart(a, o, sequence, counter, data) + rest;
            var q := 3 + |DestFields(a)|;
            var p := q + |SourceFields(a)|;
            var c := p + 1 + |CounterField(o, counter)|;
            && p < |f| && c + |data| <= |f|
            && f[..2] == ToBytes(FrameControl(a, o), 2) && f[2] == sequence
            && f[3..q] == DestFields(a) && f[q..p] == SourceFields(a) && f[p] == ProtocolByte(o)
            && f[p + 1..c] == CounterField(o, counter) && f[c..c + |data|] == data
            && f[..c + |data|] == SignedPart(a, o, sequence, counter, data) && f[c + |data|..] == rest
  {
    var h := HeaderPart(a, o, sequence, counter);
    var f := SignedPart(a, o, sequence, counter, data) + rest;
    HeaderLayout(a, o, sequence, counter);
    assert f[..|h|] == h;
    var q := 3 + |DestFields(a)|;
    var p := q + |SourceFields(a)|;
    SliceSlice(f, 0, |h|, 0, 2);
    SliceSlice(f, 0, |h|, 3, q);
    SliceSlice(f, 0, |h|, q, p);
    SliceSlice(f, 0, |h|, p + 1, |h|);
    assert f[2] == h[2] && f[p] == h[p];
    assert f[..|h| + |data|] == SignedPart(a, o, sequence, counter, data);
  }

  /** The first bytes of a frame, bit by bit: data frame, nothing pending, ack request, same network; then the address
      modes at bits 2 and 6, and the sequence number. */
  lemma ControlBits(a: Addr, o: Options, sequence: byte, counter: nat, data: seq<byte>, rest: seq<byte>)
    requires o.protocol < 256 && IsMode(a.destMode) && IsMode(a.sourceMode)
    ensures var f := SignedPart(a, o, sequence, counter, data) + rest;
            && |f| >= 3 && f[0] % 32 == 1 && (f[0] / 32 % 2 == 1 <==> o.ack) && f[0] / 64 == 1
            && f[1] == 4 * a.destMode + 64 * a.sourceMode && f[2] == sequence
  {
    hide SignedPart, HeaderPart, DestFields, SourceFields, CounterField;
    var f := SignedPart(a, o, sequence, counter, data) + rest;
    Layout(a, o, sequence, counter, data, rest);
    var c := FrameControl(a, o);
    assert ToBytes(c, 2) == [c % 256] + ToBytes(c / 256, 1) == [c % 256, c / 256 % 256];
    assert f[..2][0] == f[0] && f[..2][1] == f[1];
  }

  /** Where the other fields stand, low byte first, in a frame with short addresses. */
  lemma ShortFrame(a: Addr, o: Options, sequence: byte, counter: nat, data: seq<byte>, rest: seq<byte>)
    requires o.protocol < 256 && a.destMode == a.sourceMode == 2
    requires a.destPan < 65536 && a.destAddr < 65536 && a.sourceAddr < 65536 && counter < 0x1_0000_0000
    ensures var f := SignedPart(a, o, sequence, counter, data) + rest;
            && |f| == 10 + (if o.secure then 4 else 0) + |data| + |rest|
            && f[3] == a.destPan % 256 && f[4] == a.destPan / 256
            && f[5] == a.destAddr % 256 && f[6] == a.destAddr / 256
            && f[7] == a.sourceAddr % 256 && f[8] == a.sourceAddr / 256
            && f[9] == (if o.secure && o.protocol < 128 then o.protocol + 128 else o.protocol)
            && (o.secure ==> f[10] == counter % 256 && f[11] == counter / 256 % 256 && f[12] == counter / 65536 % 256
                             && f[13] == counter / 16777216 && f[14..14 + |data|] == data)
            && (!o.secure ==> f[10..10 + |data|] == data)
  {
    var f := SignedPart(a, o, sequence, counter, data) + rest;
    Layout(a, o, sequence, counter, data, rest);
    hide SignedPart, HeaderPart, FrameControl, ToBytes;
    TwoBytes(a.destPan);
    TwoBytes(a.destAddr);
    TwoBytes(a.sourceAddr);
    FourBytes(counter);
    assert f[3..7] == ToBytes(a.destPan, 2) + ToBytes(a.destAddr, 2);
    assert f[3..7][0] == f[3] && f[3..7][1] == f[4] && f[3..7][2] == f[5] && f[3..7][3] == f[6];
    assert f[7..9][0] == f[7] && f[7..9][1] == f[8];
    if o.secure {
      assert f[10..14][0] == f[10] && f[10..14][1] == f[11] && f[10..14][2] == f[12] && f[10..14][3] == f[13];
    }
  }

  /** A frame from another network, which names that network too, as it is parsed: both addresses short. */
  lemma ForeignFrame(f: seq<byte>)
    requires |f| > 11 && f[0] / 64 % 2 == 0 && f[1] / 4 % 4 == 2 && f[1] / 64 == 2
    ensures HasAddress(f) && AddressEnd(f) == 11
    ensures var a := ParsedAddr(f);
            && a.destMode == 2 && a.sourceMode == 2
            && a.destPan == f[3] as int + 256 * f[4] as int && a.destAddr == f[5] as int + 256 * f[6] as int
            && a.sourcePan == f[7] as int + 256 * f[8] as int && a.sourceAddr == f[9] as int + 256 * f[10] as int
  {
    forall i | 0 <= i < 11
      ensures FromBytes(f[i..i + 2]) == f[i] as int + 256 * f[i + 1] as int
    {
      FromTwo(f[i..i + 2]);
    }
    hide FromBytes;
    assert f[0..2] == f[..2];
    var low: nat, high: nat := f[0], f[1];
    ControlOf(low, high);
  }

  lemma FromTwo(s: seq<byte>)
    requires |s| == 2
    ensures FromBytes(s) == s[0] as int + 256 * s[1] as int
  {
    assert s[1..][1..] == [];
    assert FromBytes([]) == 0;
  }

  lemma ControlOf(low: nat, high: nat)
    requires low < 256 && high < 256
    ensures var c := low + 256 * high;
            DestMode(c) == high / 4 % 4 && SourceMode(c) == high / 64 && (IntraPan(c) <==> low / 64 % 2 == 1)
  {
    DivModUnique(low + 256 * high, 256, high, low);
    var c := low + 256 * high;
    assert c / 1024 == c / 256 / 4 && c / 16384 == c / 256 / 64;
    assert c / 64 == low / 64 + 4 * high;
  }

  lemma TwoBytes(n: nat)
    requires n < 65536
    ensures ToBytes(n, 2) == [n % 256, n / 256]
  {
    assert ToBytes(n, 2) == [n % 256] + ToBytes(n / 256, 1);
    assert ToBytes(n / 256, 1) == [n / 256 % 256];
  }

  lemma FourBytes(n: nat)
    requires n < 0x1_0000_0000
    ensures ToBytes(n, 4) == [n % 256, n / 256 % 256, n / 65536 % 256, n / 16777216]
  {
    var m := n / 256 / 256;
    assert ToBytes(n, 4) == [n % 256, n / 256 % 256] + ToBytes(m, 2);
    TwoBytes(m);
  }

  lemma PowValues()
    ensures Pow256(0) == 1 && Pow256(2) == 65536 && Pow256(4) == 0x1_0000_0000
  {
    assert Pow256(1) == 256 && Pow256(3) == 256 * 65536;
  }

  /** The parser finds every field where the builder put it. */
  lemma AddressRoundTrip(a: Addr, o: Options, sequence: byte, counter: nat, data: seq<byte>, rest: seq<byte>)
    requires o.protocol < 256 && AddrOk(a)
    ensures var f := SignedPart(a, o, sequence, counter, data) + rest;
            && HasAddress(f) && AddressEnd(f) == 3 + |DestFields(a)| + |SourceFields(a)|
            && ParsedAddr(f) == Carried(a)
  {
    hide SignedPart, HeaderPart, FrameControl, ToBytes, FromBytes, Pow256, DestMode, SourceMode, IntraPan, CounterField;
    var f := SignedPart(a, o, sequence, counter, data) + rest;
    Layout(a, o, sequence, counter, data, rest);
    ControlRoundTrip(a, o);
    PowValues();
    FieldsRoundTrip(a);
    var q := 3 + |DestFields(a)|;
    var p := q + |SourceFields(a)|;
    if a.destMode != MODE_NONE {
      assert f[3..5] == f[3..q][..2] && f[5..q] == f[3..q][2..];
    }
  }

  lemma FieldsRoundTrip(a: Addr)
    requires AddrOk(a)
    ensures a.destMode != MODE_NONE ==>
              FromBytes(DestFields(a)[..2]) == a.destPan && FromBytes(DestFields(a)[2..]) == a.destAddr
    ensures FromBytes(SourceFields(a)) == if a.sourceMode == MODE_NONE then 0 else a.sourceAddr
  {
    if a.destMode != MODE_NONE {
      BytesRoundTrip(a.destPan, 2);
      BytesRoundTrip(a.destAddr, AddrLen(a.destMode));
      assert DestFields(a)[..2] == ToBytes(a.destPan, 2);
      assert DestFields(a)[2..] == ToBytes(a.destAddr, AddrLen(a.destMode));
    }
    if a.sourceMode != MODE_NONE {
      BytesRoundTrip(a.sourceAddr, AddrLen(a.sourceMode));
    }
  }

  /** The addresses that survive: nothing in the fields that are not carried. */
  predicate Whole(a: Addr) {
    && a.sourcePan == 0
    && (a.destMode == MODE_NONE ==> a.destAddr == 0 && a.destPan == 0)
    && (a.sourceMode == MODE_NONE ==> a.sourceAddr == 0)
  }

  lemma WholeIsCarried(a: Addr)
    ensures Carried(a) == a <==> Whole(a)
  {
  }

  /** What should come out of a built frame. */
  function Expected(a: Addr, o: Options, sequence: byte, counter: nat, data: seq<byte>, sign: Signer): Received
    requires o.protocol < 256
  {
    var signed := SignedPart(a, o, sequence, counter, data);
    if o.secure then Received(Carried(a), o.protocol, true, counter, signed, sign(signed), data)
    else Received(Carried(a), o.protocol, false, 0, [], [], data)
  }

  /** What a receiver makes of a built frame, whatever its protocol number. */
  lemma FrameFields(a: Addr, o: Options, sequence: byte, counter: nat, data: seq<byte>, sign: Signer, fcs: seq<byte>)
    requires o.protocol < 256 && AddrOk(a) && counter < 0x1_0000_0000 && TagsFit(sign) && |fcs| == FCS_SIZE
    ensures var f, e := Frame(a, o, sequence, counter, data, sign) + fcs, Expected(a, o, sequence, counter, data, sign);
            && |f| == HeaderLength(a, o) + |data| && HasAddress(f) && ParsedAddr(f) == Carried(a)
            && (Complete(f) && Parsed(f) == e.(protocol := o.protocol % 16)
                <==> o.secure || o.protocol < SECURITY_AUTH)
            && (Complete(f) ==> Parsed(f).protocol == o.protocol % 16)
  {
    hide FrameControl, ToBytes, FromBytes, Pow256, DestFields, SourceFields, ParsedAddr, HasAddress, AddressEnd,
        Carried;
    var signed := SignedPart(a, o, sequence, counter, data);
    var rest := (if o.secure then sign(signed) else []) + fcs;
    FrameLength(a, o, sequence, counter, data, sign);
    AddressRoundTrip(a, o, sequence, counter, data, rest);
    Layout(a, o, sequence, counter, data, rest);
    var f := signed + rest;
    assert f == Frame(a, o, sequence, counter, data, sign) + fcs;
    CounterRoundTrip(o, counter);
    var p := 3 + |DestFields(a)| + |SourceFields(a)|;
    var c := p + 1 + |CounterField(o, counter)|;
    if o.secure {
      assert f[c + |data|..c + |data| + AUTH_TAG_SIZE] == rest[..AUTH_TAG_SIZE] == sign(signed);
    }
  }

  /** Parsing a built frame gives back addresses, modes, protocol and payload for all nine pairs of address modes; with
      authentication the receiver checks exactly the bytes that were signed, against exactly the tag made of them. That
      holds exactly for protocol numbers that fit the four bits a receiver keeps. Of a larger one it loses the upper
      bits and nothing else; only an unsecured frame whose number sets the security flag is taken for a secured one. */
  lemma FrameRoundTrip(a: Addr, o: Options, sequence: byte, counter: nat, data: seq<byte>, sign: Signer, fcs: seq<byte>)
    requires o.protocol < 256 && AddrOk(a) && counter < 0x1_0000_0000 && TagsFit(sign) && |fcs| == FCS_SIZE
    ensures var f, e := Frame(a, o, sequence, counter, data, sign) + fcs, Expected(a, o, sequence, counter, data, sign);
            && |f| == HeaderLength(a, o) + |data| && HasAddress(f)
            && (Complete(f) && Parsed(f) == e <==> o.protocol < 16)
            && (Complete(f) && Parsed(f) == e.(protocol := o.protocol % 16)
                <==> o.secure || o.protocol < SECURITY_AUTH)
            && (ParsedAddr(f) == a <==> Whole(a)) && ParsedAddr(f) == Carried(a)
  {
    FrameFields(a, o, sequence, counter, data, sign, fcs);
    WholeIsCarried(a);
    hide Frame, HeaderLength, HasAddress, Complete, Parsed, ParsedAddr, Carried, Whole, AddrOk, SignedPart;
  }

  lemma CounterRoundTrip(o: Options, counter: nat)
    requires counter < 0x1_0000_0000
    ensures o.secure ==> |CounterField(o, counter)| == COUNTER_SIZE && FromBytes(CounterField(o, counter)) == counter
  {
    PowValues();
    BytesRoundTrip(counter, COUNTER_SIZE);
  }
}
