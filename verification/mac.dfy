/** Building and parsing radio frames, pointer by pointer. */
module Mac {
  import opened Bytes
  import opened MacFrames

  /** Write a field and advance; what stands before it stays. */
  method Put(buf: array<byte>, ptr: nat, d: seq<byte>) returns (next: nat)
    requires 3 <= ptr && ptr + |d| <= buf.Length
    modifies buf
    ensures next == ptr + |d| && buf[..3] == old(buf[..3])
    ensures buf[3..next] == old(buf[3..ptr]) + d
  {
    for k := 0 to |d|
      invariant buf[..3] == old(buf[..3]) && buf[3..ptr + k] == old(buf[3..ptr]) + d[..k]
    {
      buf[ptr + k] := d[k];
      assert buf[3..ptr + k + 1] == buf[3..ptr + k] + [d[k]];
    }
    next := ptr + |d|;
  }

  /** The frame control field, once all its bits are known. */
  method PutControl(buf: array<byte>, fcf: nat, ghost ptr: nat)
    requires 3 <= ptr <= buf.Length
    modifies buf
    ensures buf[..2] == ToBytes(fcf, 2) && buf[2] == old(buf[2]) && buf[3..ptr] == old(buf[3..ptr])
  {
    buf[0], buf[1] := fcf % 256, fcf / 256 % 256;
    assert ToBytes(fcf / 256, 1) == [fcf / 256 % 256];
  }

  class Builder {
    var sequence: byte

    constructor ()
      ensures sequence == 0
    {
      sequence := 0;
    }

    /** Fill a buffer with a frame. The returned length counts the frame check sequence the radio will append. */
    method BuildFrame(a: Addr, o: Options, counter: nat, data: seq<byte>, sign: Signer, buf: array<byte>)
      returns (length: nat)
      requires IsMode(a.destMode) && IsMode(a.sourceMode) && o.protocol < 256 && TagsFit(sign)
      requires HeaderLength(a, o) + |data| <= MAX_FRAME_SIZE <= buf.Length
      modifies this, buf
      ensures sequence == (old(sequence) + 1) % 256
      ensures length == HeaderLength(a, o) + |data|
      ensures length == |data| + 6 + (if o.secure then 16 else 0) + (if a.sourceMode == 2 then 2 else 0)
                        + (if a.sourceMode == 3 then 8 else 0) + (if a.destMode == 2 then 4 else 0)
                        + (if a.destMode == 3 then 10 else 0)
      ensures buf[..length - FCS_SIZE] == Frame(a, o, sequence, counter, data, sign)
      ensures buf[0] % 32 == 1 && (buf[0] / 32 % 2 == 1 <==> o.ack) && buf[0] / 64 == 1
      ensures buf[1] == 4 * a.destMode + 64 * a.sourceMode && buf[2] == sequence
    {
      hide ToBytes, HeaderPart;
      sequence := (sequence + 1) % 256;
      FrameLength(a, o, sequence, counter, data, sign);
      length := HeaderLength(a, o) + |data|;
      buf[2] := sequence;
      var ptr := PutHeader(a, o, counter, buf);
      SplitBuffer(buf[..], ptr);
      ptr := Put(buf, ptr, data);
      SplitBuffer(buf[..], ptr);
      assert buf[..ptr] == SignedPart(a, o, sequence, counter, data);
      if o.secure {
        ptr := Sign(buf, length - (AUTH_TAG_SIZE + FCS_SIZE), ptr, sign);
      }
      FrameStart(a, o, sequence, counter, data, sign, buf[..]);
    }

    /** Control field, addresses, protocol byte and, when secured, the replay counter. */
    method PutHeader(a: Addr, o: Options, counter: nat, buf: array<byte>) returns (ptr: nat)
      requires IsMode(a.destMode) && IsMode(a.sourceMode) && o.protocol < 256 && buf.Length >= MAX_FRAME_SIZE
      modifies buf
      ensures 3 <= ptr == |HeaderPart(a, o, old(buf[2]), counter)| <= buf.Length
      ensures buf[..ptr] == HeaderPart(a, o, old(buf[2]), counter)
    {
      hide ToBytes;
      ghost var sequenceByte := buf[2];
      var fcf := FCF_TYPE_DATA;
      if o.ack {
        fcf := fcf + FCF_ACK_REQ;
      }
      fcf := fcf + FCF_INTRA_PAN;
      ptr := PutAddresses(a, buf);
      fcf := fcf + a.destMode * 1024;
      fcf := fcf + a.sourceMode * 16384;
      PutControl(buf, fcf, ptr);
      assert buf[..3] == ToBytes(fcf, 2) + [sequenceByte];
      var pcf := o.protocol;
      if o.secure && pcf < SECURITY_AUTH { // OR in the flag
        pcf := pcf + SECURITY_AUTH;
      }
      ptr := Put(buf, ptr, [pcf]);
      if o.secure {
        ptr := Put(buf, ptr, ToBytes(counter, COUNTER_SIZE));
      }
      assert buf[..ptr] == buf[..3] + buf[3..ptr];
    }

    /** Destination network and address when there is a destination, then the source address. */
    method PutAddresses(a: Addr, buf: array<byte>) returns (ptr: nat)
      requires IsMode(a.destMode) && IsMode(a.sourceMode) && buf.Length >= 23
      modifies buf
      ensures ptr == 3 + |DestFields(a)| + |SourceFields(a)| <= buf.Length
      ensures buf[3..ptr] == DestFields(a) + SourceFields(a) && buf[2] == old(buf[2])
    {
      hide ToBytes;
      ptr := 3;
      ghost var b2 := buf[..3][2];
      if a.destMode != MODE_NONE {
        ptr := Put(buf, ptr, ToBytes(a.destPan, 2));
      }
      if a.destMode == MODE_SHORT {
        ptr := Put(buf, ptr, ToBytes(a.destAddr, 2));
      } else if a.destMode == MODE_LONG {
        ptr := Put(buf, ptr, ToBytes(a.destAddr, 8));
      }
      if a.sourceMode == MODE_SHORT {
        ptr := Put(buf, ptr, ToBytes(a.sourceAddr, 2));
      } else if a.sourceMode == MODE_LONG {
        ptr := Put(buf, ptr, ToBytes(a.sourceAddr, 8));
      }
      assert buf[..3][2] == b2;
      assert a.sourceMode == MODE_NONE ==> SourceFields(a) == [];
    }
  }

  lemma FrameStart(a: Addr, o: Options, sequence: byte, counter: nat, data: seq<byte>, sign: Signer, b: seq<byte>)
    requires o.protocol < 256 && IsMode(a.destMode) && IsMode(a.sourceMode)
    requires |Frame(a, o, sequence, counter, data, sign)| <= |b|
    requires b[..|Frame(a, o, sequence, counter, data, sign)|] == Frame(a, o, sequence, counter, data, sign)
    ensures |b| >= 3 && b[0] % 32 == 1 && (b[0] / 32 % 2 == 1 <==> o.ack) && b[0] / 64 == 1
    ensures b[1] == 4 * a.destMode + 64 * a.sourceMode && b[2] == sequence
  {
    var signed := SignedPart(a, o, sequence, counter, data);
    ControlBits(a, o, sequence, counter, data, if o.secure then sign(signed) else []);
    hide SignedPart, HeaderPart;
    var f := Frame(a, o, sequence, counter, data, sign);
    assert b[..|f|][0] == b[0] && b[..|f|][1] == b[1] && b[..|f|][2] == b[2];
  }

  lemma SplitBuffer(b: seq<byte>, ptr: nat)
    requires 3 <= ptr <= |b|
    ensures b[..ptr] == b[..2] + [b[2]] + b[3..ptr]
  {
  }

  /** The tag covers everything written so far. */
  method Sign(buf: array<byte>, covered: nat, ptr: nat, sign: Signer) returns (next: nat)
    requires TagsFit(sign) && covered == ptr && 3 <= ptr && ptr + AUTH_TAG_SIZE <= buf.Length
    modifies buf
    ensures next == ptr + AUTH_TAG_SIZE
    ensures buf[..next] == old(buf[..ptr]) + sign(old(buf[..ptr]))
  {
    ghost var was := buf[..ptr];
    var tag := sign(buf[..covered]);
    next := Put(buf, ptr, tag);
    assert buf[..next] == buf[..3] + buf[3..next];
    assert was == was[..3] + was[3..];
  }

  // ---- receiving ----

  /** Reads the fields after the sequence number; returns the address and where it ends. */
  method DecodeAddress(frame: seq<byte>) returns (a: Addr, ptr: nat)
    requires HasAddress(frame)
    ensures a == ParsedAddr(frame) && ptr == AddressEnd(frame)
  {
    assert FromBytes([]) == 0;
    hide FromBytes;
    assert forall p :: 0 <= p <= |frame| ==> frame[p..p] == [];
    var fcf := FromBytes(frame[..2]);
    ptr := 3;
    a := Addr(0, MODE_NONE, 0, 0, MODE_NONE, 0);
    if DestMode(fcf) != 0 {
      a := a.(destPan := FromBytes(frame[ptr..ptr + 2]));
      ptr := ptr + 2;
    }
    if DestMode(fcf) == MODE_SHORT {
      a := a.(destAddr := FromBytes(frame[ptr..ptr + 2]), destMode := MODE_SHORT);
      ptr := ptr + 2;
    } else if DestMode(fcf) == MODE_LONG {
      a := a.(destAddr := FromBytes(frame[ptr..ptr + 8]), destMode := MODE_LONG);
      ptr := ptr + 8;
    }
    if !IntraPan(fcf) {
      a := a.(sourcePan := FromBytes(frame[ptr..ptr + 2]));
      ptr := ptr + 2;
    }
    if SourceMode(fcf) == MODE_SHORT {
      a := a.(sourceAddr := FromBytes(frame[ptr..ptr + 2]), sourceMode := MODE_SHORT);
      ptr := ptr + 2;
    } else if SourceMode(fcf) == MODE_LONG {
      a := a.(sourceAddr := FromBytes(frame[ptr..ptr + 8]), sourceMode := MODE_LONG);
      ptr := ptr + 8;
    }
  }

  /** Take a received frame, check sequence included, apart. Frames that are not data frames, go to the broadcast
      network, were seen before, or fail the authentication check are dropped. */
  method RxHandler(frame: seq<byte>, replayed: bool, verify: (nat, nat, seq<byte>, seq<byte>) -> bool)
    returns (r: Option<Received>)
    requires |frame| >= 2 && (Control(frame) % 2 == 1 ==> Complete(frame))
    ensures r.Some? ==> Control(frame) % 2 == 1 && r.value == Parsed(frame)
    ensures r.Some? <==>
              && Control(frame) % 2 == 1 && ParsedAddr(frame).destPan != 0xffff && !replayed
              && var p := Parsed(frame); (p.secure ==> verify(p.addr.sourceAddr, p.counter, p.covered, p.tag))
  {
    hide FromBytes, ParsedAddr, AddressEnd;
    var fcf := FromBytes(frame[..2]);
    if fcf % 2 != FCF_TYPE_DATA {
      return None;
    }
    var addr, ptr := DecodeAddress(frame);
    var len := |frame| - 5 - (ptr - 3);
    if addr.destPan == PAN_BROADCAST {
      return None;
    }
    if replayed {
      return None;
    }
    var pcf := frame[ptr];
    ptr := ptr + 1;
    len := len - 1;
    var rx := Received(addr, pcf % 16, false, 0, [], [], []);
    if pcf >= SECURITY_AUTH {
      var counter := FromBytes(frame[ptr..ptr + COUNTER_SIZE]);
      ptr := ptr + COUNTER_SIZE;
      len := len - COUNTER_SIZE - AUTH_TAG_SIZE;
      var covered := frame[..|frame| - (AUTH_TAG_SIZE + FCS_SIZE)];
      var tag := frame[ptr + len..ptr + len + AUTH_TAG_SIZE];
      rx := rx.(secure := true, counter := counter, covered := covered, tag := tag);
      if !verify(addr.sourceAddr, counter, covered, tag) {
        return None;
      }
    }
    return Some(rx.(payload := frame[ptr..ptr + len]));
  }
}
