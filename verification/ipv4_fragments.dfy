/** Fragment headers, and cutting a message into fragments and putting it together again, stated on values. */
module Ipv4Fragments {
  import opened Bytes

  const HEADER_SIZE: nat := 4
  const FLAG_IPV4: nat := 0x80
  const FRAGMENT_TIMEOUT: nat := 10

  datatype Header = Header(flags: nat, tag: nat, size: nat, offset: nat)
  {
    /** Four flag bits in the high nibble, an 8-bit tag, 10 bits each for size and offset. */
    predicate Fits() { flags < 256 && flags % 16 == 0 && tag < 256 && size < 1024 && offset < 1024 }
  }

  /** The fields are packed across byte borders: flags 4, tag 8, size 10, offset 10 bits. Masks and shifts of disjoint
      fields are written as remainders, quotients and sums. */
  function BuildHeader(h: Header): (r: seq<byte>)
    ensures |r| == HEADER_SIZE
  {
    [(h.flags % 256) / 16 * 16 + (h.tag % 256) / 16,
     h.tag % 16 * 16 + h.size / 64 % 16,
     h.size % 64 * 4 + h.offset / 256 % 4,
     h.offset % 256]
  }

  function ParseHeader(s: seq<byte>): (h: Header)
    requires |s| >= HEADER_SIZE
    ensures h.Fits()
  {
    var a: int, b: int, c: int, d: int := s[0], s[1], s[2], s[3];
    Header(a / 16 * 16, a % 16 * 16 + b / 16, b % 16 * 64 + c / 4, c % 4 * 256 + d)
  }

  /** Building and parsing are inverse exactly on the headers whose fields fit their bits ... */
  lemma ParseBuild(h: Header)
    ensures ParseHeader(BuildHeader(h)) == h <==> h.Fits()
  {
    if h.Fits() {
      var r := BuildHeader(h);
      assert r[0] / 16 * 16 == h.flags && r[0] % 16 == h.tag / 16;
      assert r[1] / 16 == h.tag % 16 && r[1] % 16 == h.size / 64;
      assert r[2] / 4 == h.size % 64 && r[2] % 4 == h.offset / 256;
    }
  }

  /** The bits of the four bytes. */
  lemma HeaderBits(h: Header)
    requires h.Fits()
    ensures var r := BuildHeader(h);
            && r[0] / 16 == h.flags / 16 && r[0] % 16 == h.tag / 16
            && r[1] / 16 == h.tag % 16 && r[1] % 16 == h.size / 64
            && r[2] / 4 == h.size % 64 && r[2] % 4 == h.offset / 256
            && r[3] == h.offset % 256
  {
    FirstBits(h.flags, h.tag);
    MiddleBits(h.tag, h.size, h.offset);
  }

  lemma FirstBits(flags: nat, tag: nat)
    requires flags < 256 && tag < 256
    ensures var r := (flags % 256) / 16 * 16 + (tag % 256) / 16; r / 16 == flags / 16 && r % 16 == tag / 16
  {
    assert flags % 256 == flags && tag % 256 == tag;
    Nibbles(flags / 16, tag / 16);
  }

  lemma Nibbles(x: nat, y: nat)
    requires y < 16
    ensures (x * 16 + y) / 16 == x && (x * 16 + y) % 16 == y
  {
  }

  lemma MiddleBits(tag: nat, size: nat, offset: nat)
    requires tag < 256 && size < 1024 && offset < 1024
    ensures var r := tag % 16 * 16 + size / 64 % 16; r / 16 == tag % 16 && r % 16 == size / 64
    ensures var r := size % 64 * 4 + offset / 256 % 4; r / 4 == size % 64 && r % 4 == offset / 256
  {
    Nibbles(tag % 16, size / 64);
    DivModUnique(size % 64 * 4 + offset / 256, 4, size % 64, offset / 256);
  }

  /** ... and every four bytes are the header they parse to. */
  lemma BuildParse(s: seq<byte>)
    requires |s| == HEADER_SIZE
    ensures BuildHeader(ParseHeader(s)) == s
  {
    FirstByte(s[0], s[1]);
    SecondByte(s[1], s[2]);
    LastBytes(s[1], s[2], s[3]);
  }

  lemma FirstByte(a: nat, b: nat)
    requires a < 256 && b < 256
    ensures var tag := a % 16 * 16 + b / 16; a / 16 * 16 % 256 / 16 * 16 + tag % 256 / 16 == a && tag % 16 == b / 16
  {
    Nibbles(a % 16, b / 16);
    Nibbles(a / 16, 0);
    assert a / 16 * 16 % 256 == a / 16 * 16 && (a % 16 * 16 + b / 16) % 256 == a % 16 * 16 + b / 16;
  }

  lemma SecondByte(b: nat, c: nat)
    requires b < 256 && c < 256
    ensures b / 16 * 16 + (b % 16 * 64 + c / 4) / 64 % 16 == b
  {
    DivModUnique(b % 16 * 64 + c / 4, 64, b % 16, c / 4);
  }

  lemma LastBytes(b: nat, c: nat, d: nat)
    requires b < 256 && c < 256 && d < 256
    ensures var size, offset := b % 16 * 64 + c / 4, c % 4 * 256 + d;
            size % 64 * 4 + offset / 256 % 4 == c && offset % 256 == d
  {
    var size, offset := b % 16 * 64 + c / 4, c % 4 * 256 + d;
    assert size % 64 == c / 4;
    assert offset / 256 == c % 4 && offset % 256 == d;
  }

  // ---- messages and their fragments ----

  datatype Message = Message(source: nat, flags: nat, tag: nat, data: seq<byte>)
  {
    predicate Ok() {
      flags < 256 && flags % 16 == 0 && flags >= FLAG_IPV4 && tag < 256 && 0 < |data| < 1024
    }
  }

  /** The frame carrying n bytes of a message from some offset on. */
  function Fragment(m: Message, offset: nat, n: nat): seq<byte>
    requires offset + n <= |m.data|
  {
    BuildHeader(Header(m.flags, m.tag, |m.data|, offset)) + m.data[offset..offset + n]
  }

  /** How much the next frame takes: a full frame or what is left. */
  function NextLen(room: nat, total: nat, offset: nat): nat
    requires offset <= total
  {
    if room > total - offset then total - offset else room
  }

  ghost predicate FragmentOf(m: Message, frame: seq<byte>) {
    exists offset, n :: 0 <= offset && 0 <= n && offset + n <= |m.data| && frame == Fragment(m, offset, n)
  }

  // ---- the receiver ----

  /** A message being received; its first |data| bytes are in. */
  datatype Partial = Partial(flags: nat, age: nat, tag: nat, source: nat, size: nat, data: seq<byte>)

  type Rx = seq<Partial>

  /** First stream of a sender and tag, or -1. */
  function Find(rx: Rx, source: nat, tag: nat): (r: int)
    ensures -1 <= r < |rx|
    ensures r >= 0 ==> rx[r].source == source && rx[r].tag == tag
    ensures forall j :: 0 <= j < (if r < 0 then |rx| else r) ==> !(rx[j].source == source && rx[j].tag == tag)
  {
    FindFrom(rx, source, tag, 0)
  }

  function FindFrom(rx: Rx, source: nat, tag: nat, i: nat): (r: int)
    requires i <= |rx|
    ensures r == -1 || (i <= r < |rx| && rx[r].source == source && rx[r].tag == tag)
    ensures forall j :: i <= j < (if r < 0 then |rx| else r) ==> !(rx[j].source == source && rx[j].tag == tag)
    decreases |rx| - i
  {
    if i == |rx| then -1
    else if rx[i].source == source && rx[i].tag == tag then i
    else FindFrom(rx, source, tag, i + 1)
  }

  /** Data beyond the announced size is cut off. */
  function Appended(p: Partial, data: seq<byte>): Partial
    requires |p.data| <= p.size
  {
    var n := if |data| > p.size - |p.data| then p.size - |p.data| else |data|;
    p.(data := p.data + data[..n])
  }

  function Dropped(rx: Rx, i: nat): Rx
    requires i < |rx|
  {
    rx[..i] + rx[i + 1..]
  }

  /** A fragment for an existing stream: ignored unless size, offset and flags are the expected ones. */
  function Continue(rx: Rx, i: nat, h: Header, data: seq<byte>): (Rx, Option<Partial>)
    requires i < |rx| && |rx[i].data| <= rx[i].size
  {
    var p := rx[i];
    if p.size != h.size || |p.data| != h.offset || p.flags != h.flags then (rx, None)
    else
      var q := Appended(p, data);
      if |q.data| != q.size then (rx[i := q], None) else (Dropped(rx, i), Some(q))
  }

  predicate RxOk(rx: Rx) {
    forall i :: 0 <= i < |rx| ==> |rx[i].data| <= rx[i].size
  }

  /** One received frame; `room` says whether the heap can hold a new stream. The result may complete a message. */
  function Receive(rx: Rx, source: nat, frame: seq<byte>, room: bool): (Rx, Option<Partial>)
    requires |frame| >= HEADER_SIZE && RxOk(rx)
  {
    var h, data := ParseHeader(frame), frame[HEADER_SIZE..];
    var i := Find(rx, source, h.tag);
    if h.flags < FLAG_IPV4 then (rx, None)
    else if i >= 0 then Continue(rx, i, h, data)
    else if h.offset != 0 || !room then (rx, None)
    else Continue([Partial(h.flags, 0, h.tag, source, h.size, [])] + rx, 0, h, data)
  }

  /** One tick of the timeout: streams age from the front; the first one that is too old goes, and the ones behind it
      wait for the next tick. */
  function Tick(rx: Rx, i: nat): Rx
    requires i <= |rx|
    decreases |rx| - i
  {
    if i == |rx| then rx
    else
      var p := rx[i].(age := rx[i].age + 1);
      if p.age > FRAGMENT_TIMEOUT then Dropped(rx, i) else Tick(rx[i := p], i + 1)
  }

  /** The first stream that has reached age 10, or the number of streams. */
  function FirstOld(rx: Rx): (r: nat)
    ensures r <= |rx| && (r < |rx| ==> rx[r].age >= 10) && forall j :: 0 <= j < r ==> rx[j].age < 10
  {
    if rx == [] || rx[0].age >= 10 then 0 else 1 + FirstOld(rx[1..])
  }

  function Older(rx: Rx): (r: Rx)
    ensures |r| == |rx| && forall j :: 0 <= j < |rx| ==> r[j] == rx[j].(age := rx[j].age + 1)
  {
    seq(|rx|, j requires 0 <= j < |rx| => rx[j].(age := rx[j].age + 1))
  }

  /** A tick in full: the first stream that has reached age 10 is gone, those in front of it are one older and those
      behind it unchanged. */
  function Ticked(rx: Rx): Rx {
    Older(rx[..FirstOld(rx)]) + rx[Min(FirstOld(rx) + 1, |rx|)..]
  }

  lemma TickedStep(rx: Rx)
    requires rx != []
    ensures Ticked(rx) == if rx[0].age >= 10 then rx[1..] else [rx[0].(age := rx[0].age + 1)] + Ticked(rx[1..])
  {
    if rx[0].age >= 10 {
      assert Older(rx[..0]) == [];
    } else {
      var e, n := FirstOld(rx[1..]), |rx| - 1;
      assert Older(rx[..e + 1]) == [rx[0].(age := rx[0].age + 1)] + Older(rx[1..][..e]);
      assert rx[1..][Min(e + 1, n)..] == rx[Min(e + 2, |rx|)..];
    }
  }

  lemma TickStep(rx: Rx, i: nat)
    requires i < |rx|
    ensures var p := rx[i].(age := rx[i].age + 1);
            && Tick(rx, i) == (if p.age > FRAGMENT_TIMEOUT then Dropped(rx, i) else Tick(rx[i := p], i + 1))
            && Dropped(rx[i := p], i) == Dropped(rx, i)
            && (RxOk(rx) ==> RxOk(rx[i := p]) && RxOk(Dropped(rx, i)))
  {
  }

  lemma TickEnd(rx: Rx)
    ensures Tick(rx, |rx|) == rx
  {
  }

  lemma {:induction false} TickIs(front: Rx, rx: Rx)
    ensures Tick(front + rx, |front|) == front + Ticked(rx)
    decreases |rx|
  {
    hide Tick, Ticked, Dropped;
    if rx == [] {
      TickEnd(front);
      assert front + rx == front;
      assert Ticked([]) == [] by { TickedNone(); }
    } else {
      var p := rx[0].(age := rx[0].age + 1);
      InFront(front, rx, p);
      TickStep(front + rx, |front|);
      TickedStep(rx);
      if p.age <= FRAGMENT_TIMEOUT {
        TickIs(front + [p], rx[1..]);
        Grouped(front, [p], Ticked(rx[1..]));
      }
    }
  }

  lemma TickedIs(rx: Rx)
    ensures Tick(rx, 0) == Ticked(rx)
  {
    hide Tick, Ticked;
    TickIs([], rx);
    assert [] + rx == rx;
    assert [] + Ticked(rx) == Ticked(rx);
  }

  lemma TickedMeans(rx: Rx)
    ensures Ticked(rx) == Older(rx[..FirstOld(rx)]) + rx[Min(FirstOld(rx) + 1, |rx|)..]
  {
    hide Older, FirstOld;
  }

  lemma TickedNone()
    ensures Ticked([]) == []
  {
  }

  lemma InFront(front: Rx, rx: Rx, p: Partial)
    requires rx != []
    ensures var all, i := front + rx, |front|;
            all[i] == rx[0] && Dropped(all, i) == front + rx[1..] && all[i := p] == front + [p] + rx[1..]
  {
  }

  lemma Grouped(a: Rx, b: Rx, c: Rx)
    ensures a + (b + c) == a + b + c
  {
  }

  // ---- the channel ----

  /** What the receiver has, which messages may still have fragments on the air, and what has been completed, each with
      whether it matched a message on the air at that moment. */
  datatype System = System(rx: Rx, live: set<Message>, completed: seq<Message>, sent: set<Message>)

  datatype Event =
    | Launch(m: Message)
    | Retire(m: Message)
    | Frame(source: nat, frame: seq<byte>, room: bool)
    | Timeout

  predicate SameKey(source: nat, tag: nat, m: Message) { m.source == source && m.tag == tag }

  /** A tag may be used again once no fragment and no half-received stream of its old message is around. Any fragment
      of a live message may arrive at any time, any number of times. */
  ghost predicate Enabled(s: System, e: Event) {
    match e
    case Launch(m) =>
      m.Ok() && (forall l :: l in s.live ==> !SameKey(m.source, m.tag, l))
      && (forall i :: 0 <= i < |s.rx| ==> !SameKey(s.rx[i].source, s.rx[i].tag, m))
    case Retire(m) => forall i :: 0 <= i < |s.rx| ==> !SameKey(s.rx[i].source, s.rx[i].tag, m)
    case Frame(source, frame, _) => exists m :: m in s.live && m.source == source && FragmentOf(m, frame)
    case Timeout => true
  }

  function AsMessage(p: Partial): Message { Message(p.source, p.flags, p.tag, p.data) }

  ghost function Apply(s: System, e: Event): System
    requires Enabled(s, e) && RxOk(s.rx)
  {
    match e
    case Launch(m) => s.(live := s.live + {m}, sent := s.sent + {m})
    case Retire(m) => s.(live := s.live - {m})
    case Frame(source, frame, room) =>
      var (rx, done) := Receive(s.rx, source, frame, room);
      s.(rx := rx, completed := if done.Some? then s.completed + [AsMessage(done.value)] else s.completed)
    case Timeout => s.(rx := Tick(s.rx, 0))
  }

  /** A half-received stream is a beginning of one live message. */
  predicate Begins(p: Partial, m: Message) {
    && p.source == m.source && p.flags == m.flags && p.tag == m.tag && p.size == |m.data|
    && |p.data| <= |m.data| && p.data == m.data[..|p.data|]
  }

  ghost predicate PartialOk(live: set<Message>, p: Partial) {
    exists m :: m in live && Begins(p, m)
  }

  ghost predicate Inv(s: System) {
    && s.live <= s.sent && (forall m :: m in s.live ==> m.Ok())
    && (forall a, b :: a in s.live && b in s.live && a.source == b.source && a.tag == b.tag ==> a == b)
    && (forall i :: 0 <= i < |s.rx| ==> PartialOk(s.live, s.rx[i]))
    && (forall i :: 0 <= i < |s.completed| ==> s.completed[i] in s.sent)
  }

  lemma InvRx(s: System)
    requires Inv(s)
    ensures RxOk(s.rx)
  {
    forall i | 0 <= i < |s.rx|
      ensures |s.rx[i].data| <= s.rx[i].size
    {
      assert PartialOk(s.live, s.rx[i]);
    }
  }

  lemma HeaderOf(m: Message, offset: nat, n: nat)
    requires m.Ok() && offset + n <= |m.data|
    ensures |Fragment(m, offset, n)| == HEADER_SIZE + n
    ensures ParseHeader(Fragment(m, offset, n)) == Header(m.flags, m.tag, |m.data|, offset)
    ensures Fragment(m, offset, n)[HEADER_SIZE..] == m.data[offset..offset + n]
  {
    var h := Header(m.flags, m.tag, |m.data|, offset);
    ParseBuild(h);
    assert ParseHeader(Fragment(m, offset, n)) == ParseHeader(BuildHeader(h));
  }

  /** Appending the right piece to a beginning gives a longer beginning. */
  lemma BeginsFurther(p: Partial, m: Message, n: nat)
    requires Begins(p, m) && |p.data| + n <= |m.data|
    ensures Begins(Appended(p, m.data[|p.data|..|p.data| + n]), m)
    ensures |Appended(p, m.data[|p.data|..|p.data| + n]).data| == |p.data| + n
  {
    var d := m.data[|p.data|..|p.data| + n];
    assert d[..n] == d;
    assert m.data[..|p.data| + n] == m.data[..|p.data|] + d;
  }

  /** Every fragment that is not ignored belongs to the message its stream began with. */
  lemma ContinueKeeps(live: set<Message>, rx: Rx, i: nat, m: Message, offset: nat, n: nat)
    requires forall j :: 0 <= j < |rx| ==> PartialOk(live, rx[j])
    requires i < |rx| && m in live && Begins(rx[i], m) && m.Ok() && offset + n <= |m.data|
    ensures var (rx1, done) := Continue(rx, i, Header(m.flags, m.tag, |m.data|, offset), m.data[offset..offset + n]);
            && (forall j :: 0 <= j < |rx1| ==> PartialOk(live, rx1[j]))
            && (done.Some? ==> AsMessage(done.value) == m)
  {
    var p := rx[i];
    if |p.data| == offset {
      BeginsFurther(p, m, n);
      var q := Appended(p, m.data[offset..offset + n]);
      assert PartialOk(live, q);
      assert |q.data| == q.size ==> q.data == m.data;
    }
  }

  ghost predicate AllBegin(live: set<Message>, rx: Rx) {
    forall i :: 0 <= i < |rx| ==> PartialOk(live, rx[i])
  }

  ghost predicate KeysUnique(live: set<Message>) {
    forall a, b :: a in live && b in live && a.source == b.source && a.tag == b.tag ==> a == b
  }

  lemma ReceiveKeeps(live: set<Message>, rx: Rx, m: Message, offset: nat, n: nat, room: bool)
    requires AllBegin(live, rx) && RxOk(rx) && KeysUnique(live) && m in live && m.Ok() && offset + n <= |m.data|
    ensures |Fragment(m, offset, n)| >= HEADER_SIZE
    ensures var (rx1, done) := Receive(rx, m.source, Fragment(m, offset, n), room);
            AllBegin(live, rx1) && (done.Some? ==> AsMessage(done.value) == m)
  {
    hide Continue, Fragment, ParseHeader, Begins;
    HeaderOf(m, offset, n);
    var i := Find(rx, m.source, m.tag);
    if i >= 0 {
      TheOne(live, rx[i], m);
      ContinueKeeps(live, rx, i, m, offset, n);
    } else if offset == 0 && room {
      var p := Partial(m.flags, 0, m.tag, m.source, |m.data|, []);
      NewBegins(p, m);
      assert PartialOk(live, p);
      ContinueKeeps(live, [p] + rx, 0, m, offset, n);
    }
  }

  lemma NewBegins(p: Partial, m: Message)
    requires p == Partial(m.flags, 0, m.tag, m.source, |m.data|, [])
    ensures Begins(p, m)
  {
  }

  lemma TheOne(live: set<Message>, p: Partial, m: Message)
    requires PartialOk(live, p) && KeysUnique(live) && m in live && p.source == m.source && p.tag == m.tag
    ensures Begins(p, m)
  {
  }

  lemma FrameKeeps(s: System, source: nat, frame: seq<byte>, room: bool)
    requires Inv(s) && Enabled(s, Frame(source, frame, room))
    ensures RxOk(s.rx) && Inv(Apply(s, Frame(source, frame, room)))
  {
    hide Receive, Fragment, PartialOk, RxOk;
    InvRx(s);
    var m :| m in s.live && m.source == source && FragmentOf(m, frame);
    var offset, n :| 0 <= offset && 0 <= n && offset + n <= |m.data| && frame == Fragment(m, offset, n);
    ReceiveKeeps(s.live, s.rx, m, offset, n, room);
  }

  lemma {:induction false} TickKeeps(live: set<Message>, rx: Rx, i: nat)
    requires i <= |rx| && forall j :: 0 <= j < |rx| ==> PartialOk(live, rx[j])
    ensures forall j :: 0 <= j < |Tick(rx, i)| ==> PartialOk(live, Tick(rx, i)[j])
    decreases |rx| - i
  {
    if i < |rx| {
      var p := rx[i].(age := rx[i].age + 1);
      var m :| m in live && Begins(rx[i], m);
      assert Begins(p, m);
      TickKeeps(live, rx[i := p], i + 1);
    }
  }

  lemma StepKeeps(s: System, e: Event)
    requires Inv(s) && Enabled(s, e)
    ensures RxOk(s.rx) && Inv(Apply(s, e))
  {
    InvRx(s);
    var t := Apply(s, e);
    match e
    case Frame(source, frame, room) => FrameKeeps(s, source, frame, room);
    case Timeout => TickKeeps(s.live, s.rx, 0);
    case _ =>
      forall i | 0 <= i < |s.rx|
        ensures PartialOk(t.live, s.rx[i])
      {
        assert PartialOk(s.live, s.rx[i]);
        var m :| m in s.live && Begins(s.rx[i], m);
        assert m in t.live;
      }
  }

  ghost predicate StepAt(states: seq<System>, events: seq<Event>, i: nat)
    requires i < |events| < |states|
  {
    Enabled(states[i], events[i]) && RxOk(states[i].rx) && states[i + 1] == Apply(states[i], events[i])
  }

  ghost predicate Run(states: seq<System>, events: seq<Event>) {
    |states| == |events| + 1 && forall i :: 0 <= i < |events| ==> StepAt(states, events, i)
  }

  lemma {:induction false} RunKeeps(states: seq<System>, events: seq<Event>, k: nat)
    requires Run(states, events) && k <= |events| && Inv(states[0])
    ensures Inv(states[k])
  {
    if k > 0 {
      RunKeeps(states, events, k - 1);
      assert StepAt(states, events, k - 1);
      StepKeeps(states[k - 1], events[k - 1]);
    }
  }

  /** Whatever is lost, duplicated, reordered, interleaved or timed out: every message the receiver completes is one
      that was sent, byte for byte, with its sender, tag and flags. */
  lemma OnlySentMessages(states: seq<System>, events: seq<Event>, k: nat, i: nat)
    requires Run(states, events) && states[0] == System([], {}, [], {}) && k <= |events|
    requires i < |states[k].completed|
    ensures states[k].completed[i] in states[k].sent
  {
    RunKeeps(states, events, k);
  }

  // ---- lossless delivery ----

  /** Deliver all remaining frames of one message in order. */
  function Feed(rx: Rx, m: Message, room: nat, offset: nat): (Rx, Option<Partial>)
    requires RxOk(rx) && 0 < room && offset < |m.data| && m.Ok()
    decreases |m.data| - offset
  {
    var n := NextLen(room, |m.data|, offset);
    HeaderOf(m, offset, n);
    var (rx1, done) := Receive(rx, m.source, Fragment(m, offset, n), true);
    if offset + n == |m.data| then (rx1, done)
    else if RxOk(rx1) then Feed(rx1, m, room, offset + n) else (rx1, None)
  }

  /** Midway through, the stream sits at its place holding exactly what was sent so far. */
  lemma {:induction false} FeedCompletes(rx: Rx, i: nat, m: Message, room: nat, offset: nat)
    requires RxOk(rx) && 0 < room && 0 < offset < |m.data| && m.Ok()
    requires i < |rx| && Find(rx, m.source, m.tag) == i && Begins(rx[i], m) && |rx[i].data| == offset
    ensures var (rx1, done) := Feed(rx, m, room, offset);
            rx1 == Dropped(rx, i) && done.Some? && AsMessage(done.value) == m
    decreases |m.data| - offset
  {
    hide Fragment, ParseHeader, Begins, Receive;
    var n := NextLen(room, |m.data|, offset);
    HeaderOf(m, offset, n);
    OneMore(rx, i, m, offset, n);
    if offset + n < |m.data| {
      var rx1 := Receive(rx, m.source, Fragment(m, offset, n), true).0;
      FeedCompletes(rx1, i, m, room, offset + n);
      assert Dropped(rx1, i) == Dropped(rx, i);
    }
  }

  /** The expected fragment takes its stream one step on. */
  lemma OneMore(rx: Rx, i: nat, m: Message, offset: nat, n: nat)
    requires RxOk(rx) && 0 < n && offset + n <= |m.data| && m.Ok()
    requires i < |rx| && Find(rx, m.source, m.tag) == i && Begins(rx[i], m) && |rx[i].data| == offset
    ensures |Fragment(m, offset, n)| >= HEADER_SIZE
    ensures var (rx1, done) := Receive(rx, m.source, Fragment(m, offset, n), true);
            if offset + n == |m.data| then rx1 == Dropped(rx, i) && done.Some? && AsMessage(done.value) == m
            else
              && RxOk(rx1) && |rx1| == |rx| && Find(rx1, m.source, m.tag) == i && rx1 == rx[i := rx1[i]]
              && Begins(rx1[i], m) && |rx1[i].data| == offset + n && done.None?
  {
    hide Fragment, ParseHeader;
    HeaderOf(m, offset, n);
    BeginsFurther(rx[i], m, n);
    var q := Appended(rx[i], m.data[offset..offset + n]);
    if offset + n == |m.data| {
      assert q.data == m.data;
    } else {
      FindSame(rx, i, q, m.source, m.tag);
    }
  }

  lemma FindSame(rx: Rx, i: nat, q: Partial, source: nat, tag: nat)
    requires i < |rx| && Find(rx, source, tag) == i && q.source == source && q.tag == tag
    ensures Find(rx[i := q], source, tag) == i
  {
    var rx1 := rx[i := q];
    assert rx1[i] == q;
    assert forall j :: 0 <= j < i ==> rx1[j] == rx[j];
  }

  /** The first fragment starts a stream. */
  lemma FirstOne(rx: Rx, m: Message, n: nat)
    requires RxOk(rx) && 0 < n <= |m.data| && m.Ok() && Find(rx, m.source, m.tag) < 0
    ensures |Fragment(m, 0, n)| >= HEADER_SIZE
    ensures var (rx1, done) := Receive(rx, m.source, Fragment(m, 0, n), true);
            if n == |m.data| then rx1 == rx && done.Some? && AsMessage(done.value) == m
            else
              && RxOk(rx1) && |rx1| == |rx| + 1 && Find(rx1, m.source, m.tag) == 0 && rx1[1..] == rx
              && Begins(rx1[0], m) && |rx1[0].data| == n && done.None?
  {
    HeaderOf(m, 0, n);
    var p := Partial(m.flags, 0, m.tag, m.source, |m.data|, []);
    var rx0 := [p] + rx;
    assert m.data[..0] == [];
    BeginsFurther(p, m, n);
    var q := Appended(p, m.data[0..n]);
    if n == |m.data| {
      assert Dropped(rx0, 0) == rx && q.data == m.data;
    } else {
      assert Find(rx0[0 := q], m.source, m.tag) == 0;
    }
  }

  /** Lossless in-order delivery completes the message with the last frame and leaves the other streams alone. */
  lemma InOrderDelivery(rx: Rx, m: Message, room: nat)
    requires RxOk(rx) && 0 < room && m.Ok() && Find(rx, m.source, m.tag) < 0
    ensures var (rx1, done) := Feed(rx, m, room, 0); rx1 == rx && done.Some? && AsMessage(done.value) == m
  {
    var n := NextLen(room, |m.data|, 0);
    FirstOne(rx, m, n);
    hide Fragment, Receive, Begins;
    if n < |m.data| {
      var rx1 := Receive(rx, m.source, Fragment(m, 0, n), true).0;
      FeedCompletes(rx1, 0, m, room, n);
      assert Dropped(rx1, 0) == rx;
    }
  }

  /** Frames of other senders or tags do not disturb a stream, so messages may be interleaved freely. */
  lemma OtherStreams(rx: Rx, source: nat, frame: seq<byte>, room: bool, source2: nat, tag2: nat)
    requires |frame| >= HEADER_SIZE && RxOk(rx) && (source != source2 || ParseHeader(frame).tag != tag2)
    ensures var rx1 := Receive(rx, source, frame, room).0;
            var i, j := Find(rx, source2, tag2), Find(rx1, source2, tag2);
            (i < 0 <==> j < 0) && (i >= 0 ==> rx1[j] == rx[i])
  {
    hide ParseHeader;
    var h := ParseHeader(frame);
    var k := Find(rx, source, h.tag);
    if k >= 0 {
      ContinueOthers(rx, k, h, frame[HEADER_SIZE..], source2, tag2);
    } else {
      var rx0 := [Partial(h.flags, 0, h.tag, source, h.size, [])] + rx;
      ContinueOthers(rx0, 0, h, frame[HEADER_SIZE..], source2, tag2);
      SameFind(rx, rx0, 0, source2, tag2);
    }
  }

  /** Inserting or removing a stream with another key shifts, but does not change, what is found. */
  lemma SameFind(rx: Rx, more: Rx, k: nat, source: nat, tag: nat)
    requires k < |more| && rx == Dropped(more, k) && !(more[k].source == source && more[k].tag == tag)
    ensures var i, j := Find(rx, source, tag), Find(more, source, tag);
            (i < 0 <==> j < 0) && (i >= 0 ==> more[j] == rx[i])
  {
    var i, j := Find(rx, source, tag), Find(more, source, tag);
    if j >= 0 {
      var j1 := if j < k then j else j - 1;
      assert rx[j1] == more[j];
      assert i >= 0;
    }
    if i >= 0 {
      var i1 := if i < k then i else i + 1;
      assert more[i1] == rx[i];
      assert j == i1;
    }
  }

  lemma ContinueOthers(rx: Rx, k: nat, h: Header, data: seq<byte>, source: nat, tag: nat)
    requires k < |rx| && |rx[k].data| <= rx[k].size && !(rx[k].source == source && rx[k].tag == tag)
    ensures var rx1 := Continue(rx, k, h, data).0;
            var i, j := Find(rx, source, tag), Find(rx1, source, tag);
            (i < 0 <==> j < 0) && (i >= 0 ==> rx1[j] == rx[i])
  {
    var rx1 := Continue(rx, k, h, data).0;
    if |rx1| == |rx| {
      var i, j := Find(rx, source, tag), Find(rx1, source, tag);
      assert forall a :: 0 <= a < |rx| && a != k ==> rx1[a] == rx[a];
      assert rx1[k].source == rx[k].source && rx1[k].tag == rx[k].tag;
    } else {
      SameFind(rx1, rx, k, source, tag);
    }
  }
}
