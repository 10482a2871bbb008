/** The fragment sender and the reassembler as the radio interface runs them. */
module Ipv4 {
  import opened Bytes
  import opened Ipv4Fragments

  /** A message being sent; its offset moves on with every frame. */
  class Outgoing {
    const m: Message
    var offset: nat

    ghost predicate Valid()
      reads this
    {
      m.Ok() && offset <= |m.data|
    }

    constructor (m: Message)
      requires m.Ok()
      ensures Valid() && this.m == m && offset == 0
    {
      this.m := m;
      offset := 0;
    }

    /** The next frame: a full one, or what is left of the message. */
    method GetMacFrame(frameLen: nat) returns (frame: seq<byte>)
      requires Valid() && frameLen > HEADER_SIZE
      modifies this
      ensures Valid() && offset == old(offset) + NextLen(frameLen - HEADER_SIZE, |m.data|, old(offset))
      ensures frame == Fragment(m, old(offset), offset - old(offset)) && |frame| <= frameLen
      ensures old(offset) < |m.data| ==> offset > old(offset)
      ensures offset == Min(old(offset) + frameLen - 4, |m.data|)
      ensures |frame| == 4 + offset - old(offset) && frame[4..] == m.data[old(offset)..offset]
      ensures frame[0] / 16 == m.flags / 16 && frame[0] % 16 == m.tag / 16 && frame[1] / 16 == m.tag % 16
      ensures frame[1] % 16 == |m.data| / 64 && frame[2] / 4 == |m.data| % 64
      ensures frame[2] % 4 == old(offset) / 256 && frame[3] == old(offset) % 256
    {
      HeaderBits(Header(m.flags, m.tag, |m.data|, offset));
      hide BuildHeader;
      var header := BuildHeader(Header(m.flags, m.tag, |m.data|, offset));
      var copyLen := frameLen - HEADER_SIZE;
      var remaining := |m.data| - offset;
      if copyLen > remaining {
        copyLen := remaining;
      }
      frame := header + m.data[offset..offset + copyLen];
      offset := offset + copyLen;
    }
  }

  /** Send a whole message: the frames that go out carry all of its data, once and in order. */
  method SendAll(out: Outgoing, frameLen: nat) returns (frames: seq<seq<byte>>)
    requires out.Valid() && out.offset == 0 && frameLen > HEADER_SIZE
    modifies out
    ensures out.offset == |out.m.data|
    ensures forall k :: 0 <= k < |frames| ==> |frames[k]| >= HEADER_SIZE && FragmentOf(out.m, frames[k])
    ensures Payload(frames) == out.m.data
  {
    frames := [];
    while true
      invariant out.Valid() && (forall k :: 0 <= k < |frames| ==>
          |frames[k]| >= HEADER_SIZE && FragmentOf(out.m, frames[k]))
      invariant Payload(frames) == out.m.data[..out.offset]
      decreases |out.m.data| - out.offset
    {
      ghost var was := out.offset;
      var frame := out.GetMacFrame(frameLen);
      HeaderOf(out.m, was, out.offset - was);
      assert out.m.data[..out.offset] == out.m.data[..was] + out.m.data[was..out.offset];
      frames := frames + [frame];
      assert frames[..|frames| - 1] + [frame] == frames;
      if out.offset >= |out.m.data| {
        break;
      }
    }
    assert out.m.data[..out.offset] == out.m.data;
  }

  function Payload(frames: seq<seq<byte>>): seq<byte>
    requires forall k :: 0 <= k < |frames| ==> |frames[k]| >= HEADER_SIZE
  {
    if frames == [] then [] else Payload(frames[..|frames| - 1]) + frames[|frames| - 1][HEADER_SIZE..]
  }

  /** The fields of a fragment header: flags in the high nibble, then tag, size and offset. */
  function Fields(a: nat, b: nat, c: nat, d: nat): Header {
    Header(a / 16 * 16, a % 16 * 16 + b / 16, b % 16 * 64 + c / 4, c % 4 * 256 + d)
  }

  /** Stream k takes a fragment only with the same flags and size, and only exactly where it ends; what goes past the
      announced size is cut off. A stream that is full is delivered and gone. */
  predicate Continued(was: Rx, k: nat, h: Header, data: seq<byte>, now: Rx, done: Option<Partial>)
    requires k < |was| && |was[k].data| <= was[k].size
  {
    var p := was[k];
    if p.flags != h.flags || p.size != h.size || |p.data| != h.offset then now == was && done == None
    else
      var q := p.(data := p.data + data[..Min(p.size - |p.data|, |data|)]);
      if |q.data| < p.size then now == was[k := q] && done == None
      else now == was[..k] + was[k + 1..] && done == Some(q)
  }

  /** What becomes of a frame: it is ignored unless it is an IPv4 fragment that continues a stream, or the first one
      where there is none, with room for it. */
  predicate Taken(was: Rx, source: nat, frame: seq<byte>, room: bool, now: Rx, done: Option<Partial>)
    requires |frame| >= 4 && RxOk(was)
  {
    var h := Fields(frame[0], frame[1], frame[2], frame[3]);
    var i := Find(was, source, h.tag);
    if h.flags < 128 || (i < 0 && (h.offset != 0 || !room)) then now == was && done == None
    else if i >= 0 then Continued(was, i, h, frame[4..], now, done)
    else Continued([Partial(h.flags, 0, h.tag, source, h.size, [])] + was, 0, h, frame[4..], now, done)
  }

  lemma ReceiveMeans(rx: Rx, source: nat, frame: seq<byte>, room: bool)
    requires |frame| >= HEADER_SIZE && RxOk(rx)
    ensures var (now, done) := Receive(rx, source, frame, room); Taken(rx, source, frame, room, now, done)
  {
    var h, data := ParseHeader(frame), frame[HEADER_SIZE..];
    assert h == Fields(frame[0], frame[1], frame[2], frame[3]);
    hide ParseHeader, Fields, Continue, Continued;
    var i := Find(rx, source, h.tag);
    hide Find;
    if i >= 0 {
      ContinueMeans(rx, i, h, data);
    } else {
      ContinueMeans([Partial(h.flags, 0, h.tag, source, h.size, [])] + rx, 0, h, data);
    }
  }

  lemma ContinueMeans(rx: Rx, k: nat, h: Header, data: seq<byte>)
    requires k < |rx| && |rx[k].data| <= rx[k].size
    ensures var (now, done) := Continue(rx, k, h, data); Continued(rx, k, h, data, now, done)
  {
  }

  class Reassembler {
    /** Streams being received, newest first. */
    var rx: seq<Partial>

    ghost predicate Valid()
      reads this
    {
      RxOk(rx)
    }

    constructor ()
      ensures Valid() && rx == []
    {
      rx := [];
    }

    method GetMsg(source: nat, tag: nat) returns (i: int)
      ensures i == Find(rx, source, tag)
    {
      var k := 0;
      while k < |rx|
        invariant 0 <= k <= |rx|
        invariant forall j :: 0 <= j < k ==> !(rx[j].source == source && rx[j].tag == tag)
      {
        if rx[k].source == source && rx[k].tag == tag {
          return k;
        }
        k := k + 1;
      }
      return -1;
    }

    /** Take in one frame; `room` says whether the heap can hold a new stream. Returns the message it completes. */
    method ProcessFragment(frame: seq<byte>, source: nat, room: bool) returns (done: Option<Partial>)
      requires Valid() && |frame| >= HEADER_SIZE
      modifies this
      ensures Valid() && (rx, done) == Receive(old(rx), source, frame, room)
      ensures Taken(old(rx), source, frame, room, rx, done)
    {
      hide Taken, Find;
      ReceiveMeans(rx, source, frame, room);
      done := None;
      var h := ParseHeader(frame);
      if h.flags < FLAG_IPV4 {
        return;
      }
      var data := frame[HEADER_SIZE..];
      var i := GetMsg(source, h.tag);
      if i < 0 {
        if h.offset != 0 {
          return;
        }
        if !room {
          return;
        }
        rx := [Partial(h.flags, 0, h.tag, source, h.size, [])] + rx;
        i := 0;
      }
      if rx[i].size != h.size {
        return;
      }
      if h.offset != |rx[i].data| {
        return;
      }
      if h.flags != rx[i].flags {
        return;
      }
      AppendData(i, data);
      if |rx[i].data| != rx[i].size {
        return;
      }
      done := Some(rx[i]);
      rx := Dropped(rx, i);
    }

    method AppendData(i: nat, data: seq<byte>)
      requires Valid() && i < |rx|
      modifies this
      ensures Valid() && rx == old(rx)[i := Appended(old(rx)[i], data)]
    {
      var n := |data|;
      var spaceRemaining := rx[i].size - |rx[i].data|;
      if n > spaceRemaining {
        n := spaceRemaining;
      }
      rx := rx[i := rx[i].(data := rx[i].data + data[..n])];
    }

    /** One tick of the timeout: of the streams that have reached age 10 the first one goes, and the ones behind it have
        to wait. */
    method TimeoutTick()
      requires Valid()
      modifies this
      ensures Valid() && rx == Tick(old(rx), 0)
      ensures var e := FirstOld(old(rx)); rx == Older(old(rx)[..e]) + old(rx)[Min(e + 1, |old(rx)|)..]
    {
      ghost var ticked := Ticked(rx);
      TickedIs(rx);
      TickedMeans(rx);
      hide Tick, Ticked, RxOk, Dropped;
      var i := 0;
      while i < |rx|
        invariant 0 <= i <= |rx| && RxOk(rx) && Tick(rx, i) == ticked
        decreases |rx| - i
      {
        TickStep(rx, i);
        rx := rx[i := rx[i].(age := rx[i].age + 1)];
        if rx[i].age > FRAGMENT_TIMEOUT {
          rx := Dropped(rx, i);
          return;
        }
        i := i + 1;
      }
      TickEnd(rx);
    }
  }
}
