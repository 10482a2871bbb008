/** When a message is completed, whatever else comes in between its frames. */
module Ipv4Delivery {
  import opened Bytes
  import opened Ipv4Fragments

  /** Where the q-th frame of a message starts. */
  function Cut(room: nat, q: nat): nat { room * q }

  lemma CutStep(room: nat, q: nat)
    ensures Cut(room, 0) == 0 && Cut(room, q + 1) == Cut(room, q) + room
  {
  }

  lemma Cuts(room: nat, p: nat, q: nat)
    requires 0 < room
    ensures p < q <==> Cut(room, p) < Cut(room, q)
  {
  }

  /** The frame is the i-th of message m as its sender cuts it. */
  predicate IsFrame(m: Message, room: nat, i: nat, frame: seq<byte>) {
    Cut(room, i) < |m.data| && frame == Fragment(m, Cut(room, i), NextLen(room, |m.data|, Cut(room, i)))
  }

  /** The event is a frame of the sender and tag of m. */
  predicate OfStream(e: Event, m: Message) {
    e.Frame? && |e.frame| >= HEADER_SIZE && SameKey(e.source, ParseHeader(e.frame).tag, m)
  }

  /** The sender of m sends nothing else under its tag. */
  ghost predicate OwnFrames(events: seq<Event>, m: Message, room: nat) {
    forall k :: 0 <= k < |events| && OfStream(events[k], m) ==> exists i: nat :: IsFrame(m, room, i, events[k].frame)
  }

  predicate Young(rx: Rx, m: Message) {
    var i := Find(rx, m.source, m.tag);
    i >= 0 ==> rx[i].age < FRAGMENT_TIMEOUT
  }

  /** No timeout drops the stream of m. */
  ghost predicate Kept(states: seq<System>, events: seq<Event>, m: Message) {
    forall k :: 0 <= k < |events| < |states| && events[k].Timeout? ==> Young(states[k].rx, m)
  }

  /** How many frames of a message are in, after one more event: only the next one counts, and the first one only if
      there is room for a stream. */
  function Further(q: nat, e: Event, m: Message, room: nat): nat {
    if OfStream(e, m) && IsFrame(m, room, q, e.frame) && (q > 0 || e.room) then q + 1 else q
  }

  /** How many of its frames the first k events bring, in order. */
  function Arrived(events: seq<Event>, m: Message, room: nat, k: nat): nat
    requires k <= |events|
  {
    if k == 0 then 0 else Further(Arrived(events, m, room, k - 1), events[k - 1], m, room)
  }

  predicate Whole(m: Message, room: nat, q: nat) { Cut(room, q) >= |m.data| }

  /** The receiver has the first q frames of message m, but not all of it. */
  predicate Midway(rx: Rx, m: Message, room: nat, q: nat) {
    var i := Find(rx, m.source, m.tag);
    !Whole(m, room, q) && if q == 0 then i < 0 else i >= 0 && Begins(rx[i], m) && |rx[i].data| == Cut(room, q)
  }

  /** A frame says which one it is. */
  lemma FrameNumber(m: Message, room: nat, i: nat, frame: seq<byte>)
    requires m.Ok() && 0 < room && IsFrame(m, room, i, frame)
    ensures |frame| >= HEADER_SIZE
    ensures ParseHeader(frame) == Header(m.flags, m.tag, |m.data|, Cut(room, i))
    ensures forall q: nat :: IsFrame(m, room, q, frame) ==> q == i
  {
    FrameOffset(m, room, i, frame);
    hide Cut, ParseHeader, IsFrame;
    forall q: nat | IsFrame(m, room, q, frame)
      ensures q == i
    {
      FrameOffset(m, room, q, frame);
      Cuts(room, q, i);
      Cuts(room, i, q);
    }
  }

  lemma FrameOffset(m: Message, room: nat, i: nat, frame: seq<byte>)
    requires m.Ok() && IsFrame(m, room, i, frame)
    ensures |frame| >= HEADER_SIZE
    ensures ParseHeader(frame) == Header(m.flags, m.tag, |m.data|, Cut(room, i))
  {
    HeaderOf(m, Cut(room, i), NextLen(room, |m.data|, Cut(room, i)));
  }

  lemma Ignored(rx: Rx, m: Message, source: nat, frame: seq<byte>, space: bool)
    requires RxOk(rx) && |frame| >= HEADER_SIZE && SameKey(source, ParseHeader(frame).tag, m)
    requires var i := Find(rx, m.source, m.tag);
             if i < 0 then ParseHeader(frame).offset != 0 || !space else ParseHeader(frame).offset != |rx[i].data|
    ensures Receive(rx, source, frame, space) == (rx, None)
  {
    hide Cut, ParseHeader;
  }

  /** The next frame is taken, any other one of the message ignored. */
  lemma OwnFrame(rx: Rx, m: Message, room: nat, i: nat, q: nat, e: Event)
    requires RxOk(rx) && m.Ok() && 0 < room && Midway(rx, m, room, q)
    requires OfStream(e, m) && IsFrame(m, room, i, e.frame)
    ensures var (rx1, done) := Receive(rx, e.source, e.frame, e.room);
            if Whole(m, room, Further(q, e, m, room)) then done.Some? && AsMessage(done.value) == m
            else done.None? && Midway(rx1, m, room, Further(q, e, m, room))
  {
    FrameNumber(m, room, i, e.frame);
    hide Cut, Fragment, ParseHeader, Begins, Receive, Find;
    if i == q && (q > 0 || e.room) {
      NextFrame(rx, m, room, q, e);
    } else {
      Cuts(room, i, q);
      Cuts(room, q, i);
      Ignored(rx, m, e.source, e.frame, e.room);
    }
  }

  lemma NextFrame(rx: Rx, m: Message, room: nat, q: nat, e: Event)
    requires RxOk(rx) && m.Ok() && 0 < room && Midway(rx, m, room, q)
    requires OfStream(e, m) && IsFrame(m, room, q, e.frame) && (q > 0 || e.room)
    ensures var (rx1, done) := Receive(rx, e.source, e.frame, e.room);
            if Whole(m, room, q + 1) then done.Some? && AsMessage(done.value) == m
            else done.None? && Midway(rx1, m, room, q + 1)
  {
    hide Cut, Fragment, ParseHeader, Begins, Find, Receive;
    var n := NextLen(room, |m.data|, Cut(room, q));
    FrameOffset(m, room, q, e.frame);
    CutStep(room, q);
    if q == 0 {
      FirstOne(rx, m, n);
    } else {
      RoomUnneeded(rx, e.source, e.frame, e.room);
      OneMore(rx, Find(rx, m.source, m.tag), m, Cut(room, q), n);
    }
  }

  lemma RoomUnneeded(rx: Rx, source: nat, frame: seq<byte>, space: bool)
    requires RxOk(rx) && |frame| >= HEADER_SIZE && Find(rx, source, ParseHeader(frame).tag) >= 0
    ensures Receive(rx, source, frame, space) == Receive(rx, source, frame, true)
  {
  }

  /** A frame of another sender or tag completes no message of this one. */
  lemma OtherFrame(rx: Rx, m: Message, room: nat, q: nat, e: Event)
    requires RxOk(rx) && e.Frame? && |e.frame| >= HEADER_SIZE && !OfStream(e, m) && Midway(rx, m, room, q)
    ensures var (rx1, done) := Receive(rx, e.source, e.frame, e.room);
            Midway(rx1, m, room, q) && (done.Some? ==> AsMessage(done.value) != m)
  {
    OtherStreams(rx, e.source, e.frame, e.room, m.source, m.tag);
    hide Cut, Begins, ParseHeader;
  }

  /** Removing another stream. */
  lemma DropOther(rx: Rx, i: nat, source: nat, tag: nat)
    requires i < |rx| && i != Find(rx, source, tag)
    ensures var f, g := Find(rx, source, tag), Find(Dropped(rx, i), source, tag);
            if f < 0 then g < 0 else g >= 0 && Dropped(rx, i)[g] == rx[f]
  {
    var f, less := Find(rx, source, tag), Dropped(rx, i);
    if f >= 0 {
      var g := if f < i then f else f - 1;
      assert less[g] == rx[f];
      forall j | 0 <= j < g
        ensures !(less[j].source == source && less[j].tag == tag)
      {
        assert less[j] == rx[if j < i then j else j + 1];
      }
    }
  }

  /** A tick that does not drop the stream only ages it. */
  lemma {:induction false} TickOthers(rx: Rx, i: nat, source: nat, tag: nat)
    requires i <= |rx|
    requires var f := Find(rx, source, tag); f >= i ==> rx[f].age < FRAGMENT_TIMEOUT
    ensures var r, f := Tick(rx, i), Find(rx, source, tag);
            var g := Find(r, source, tag);
            if f < 0 then g < 0 else g >= 0 && r[g].(age := 0) == rx[f].(age := 0)
    decreases |rx| - i
  {
    if i < |rx| {
      var p := rx[i].(age := rx[i].age + 1);
      if p.age > FRAGMENT_TIMEOUT {
        DropOther(rx, i, source, tag);
      } else {
        SameKeys(rx, i, p, source, tag);
        TickOthers(rx[i := p], i + 1, source, tag);
      }
    }
  }

  lemma SameKeys(rx: Rx, i: nat, p: Partial, source: nat, tag: nat)
    requires i < |rx| && p.source == rx[i].source && p.tag == rx[i].tag
    ensures Find(rx[i := p], source, tag) == Find(rx, source, tag)
  {
    var now, f := rx[i := p], Find(rx, source, tag);
    assert forall j :: 0 <= j < |rx| ==> now[j].source == rx[j].source && now[j].tag == rx[j].tag;
  }

  lemma TickMidway(rx: Rx, m: Message, room: nat, q: nat)
    requires Midway(rx, m, room, q) && Young(rx, m)
    ensures Midway(Tick(rx, 0), m, room, q)
  {
    TickOthers(rx, 0, m.source, m.tag);
  }

  lemma Last(c: seq<Message>, m: Message)
    ensures c != c + [m]
    ensures forall x :: c + [x] == c + [m] ==> x == m
  {
    forall x | c + [x] == c + [m]
      ensures x == m
    {
      assert (c + [x])[|c|] == x && (c + [m])[|c|] == m;
    }
  }

  lemma FrameSize(s: System, e: Event)
    requires e.Frame? && Enabled(s, e)
    ensures |e.frame| >= HEADER_SIZE
  {
  }

  /** One event of a run, as long as the message is not complete. */
  lemma EventMidway(s: System, e: Event, m: Message, room: nat, q: nat)
    requires Enabled(s, e) && RxOk(s.rx) && m.Ok() && 0 < room && Midway(s.rx, m, room, q)
    requires OfStream(e, m) ==> exists i: nat :: IsFrame(m, room, i, e.frame)
    requires e.Timeout? ==> Young(s.rx, m)
    ensures var t, q1 := Apply(s, e), Further(q, e, m, room);
            if Whole(m, room, q1) then t.completed == s.completed + [m]
            else Midway(t.rx, m, room, q1) && t.completed != s.completed + [m]
  {
    assert !Whole(m, room, q);
    Last(s.completed, m);
    hide Cut, Receive, Fragment, ParseHeader, Midway, Young, RxOk, IsFrame, SameKey, FragmentOf, Tick, Whole;
    if e.Frame? {
      FrameSize(s, e);
    }
    if OfStream(e, m) {
      var i: nat :| IsFrame(m, room, i, e.frame);
      OwnFrame(s.rx, m, room, i, q, e);
    } else if e.Timeout? {
      TickMidway(s.rx, m, room, q);
    } else if e.Frame? {
      OtherFrame(s.rx, m, room, q, e);
    }
  }

  /** A run in which only the sender of m uses its tag, and no timeout drops its stream. */
  ghost predicate Undisturbed(states: seq<System>, events: seq<Event>, m: Message, room: nat) {
    && Run(states, events) && m.Ok() && 0 < room && Find(states[0].rx, m.source, m.tag) < 0
    && OwnFrames(events, m, room) && Kept(states, events, m)
  }

  lemma StartsMidway(rx: Rx, m: Message, room: nat)
    requires m.Ok() && Find(rx, m.source, m.tag) < 0
    ensures Midway(rx, m, room, 0)
  {
  }

  lemma {:induction false} RunMidway(states: seq<System>, events: seq<Event>, m: Message, room: nat, k: nat)
    requires Undisturbed(states, events, m, room) && k <= |events| && !Whole(m, room, Arrived(events, m, room, k))
    ensures Midway(states[k].rx, m, room, Arrived(events, m, room, k))
  {
    hide Cut, Midway, Further, Enabled, Find, Whole;
    if k == 0 {
      StartsMidway(states[0].rx, m, room);
    } else {
      ArrivedGrows(events, m, room, k - 1, k);
      RunMidway(states, events, m, room, k - 1);
      RunStep(states, events, m, room, k - 1);
    }
  }

  lemma RunStep(states: seq<System>, events: seq<Event>, m: Message, room: nat, k: nat)
    requires Undisturbed(states, events, m, room) && k < |events|
    requires Midway(states[k].rx, m, room, Arrived(events, m, room, k))
    ensures if Whole(m, room, Arrived(events, m, room, k + 1)) then states[k + 1].completed == states[k].completed + [m]
            else
              && Midway(states[k + 1].rx, m, room, Arrived(events, m, room, k + 1))
              && states[k + 1].completed != states[k].completed + [m]
  {
    assert StepAt(states, events, k);
    hide Cut, Midway, Further, Enabled, Find, Whole;
    EventMidway(states[k], events[k], m, room, Arrived(events, m, room, k));
  }

  /** Whatever else comes in, and however often or late its own frames do: a message not complete before is completed by
      exactly the event that brings the last frame it still misses in order. */
  lemma CompletedWhenArrived(states: seq<System>, events: seq<Event>, m: Message, room: nat, k: nat)
    requires Undisturbed(states, events, m, room) && k < |events| && !Whole(m, room, Arrived(events, m, room, k))
    ensures states[k + 1].completed == states[k].completed + [m] <==> Whole(m, room, Arrived(events, m, room, k + 1))
  {
    RunMidway(states, events, m, room, k);
    RunStep(states, events, m, room, k);
  }

  // ---- frames in order, with anything in between ----

  lemma {:induction false} ArrivedGrows(events: seq<Event>, m: Message, room: nat, j: nat, k: nat)
    requires j <= k <= |events|
    ensures Arrived(events, m, room, j) <= Arrived(events, m, room, k)
    ensures Whole(m, room, Arrived(events, m, room, j)) ==> Whole(m, room, Arrived(events, m, room, k))
    decreases k
  {
    if j < k {
      ArrivedGrows(events, m, room, j, k - 1);
      hide Cut, Whole;
      WholeGrows(m, room, Arrived(events, m, room, k - 1));
    }
  }

  lemma WholeGrows(m: Message, room: nat, q: nat)
    ensures Whole(m, room, q) ==> Whole(m, room, q + 1)
  {
  }

  /** The frames of m arrive in order, the i-th one as event at[i]; there is room for the first. */
  ghost predicate InOrder(events: seq<Event>, m: Message, room: nat, at: seq<nat>) {
    && at != [] && Whole(m, room, |at|) && !Whole(m, room, |at| - 1)
    && (forall i, j :: 0 <= i < j < |at| ==> at[i] < at[j])
    && forall i :: 0 <= i < |at| ==> at[i] < |events| && Brings(events[at[i]], m, room, i)
  }

  predicate Brings(e: Event, m: Message, room: nat, i: nat) {
    OfStream(e, m) && IsFrame(m, room, i, e.frame) && (i == 0 ==> e.room)
  }

  lemma {:induction false} EachArrives(events: seq<Event>, m: Message, room: nat, at: seq<nat>, i: nat)
    requires InOrder(events, m, room, at) && i < |at|
    ensures Arrived(events, m, room, at[i] + 1) > i
  {
    hide Cut, OfStream, IsFrame, Whole;
    assert Brings(events[at[i]], m, room, i);
    if i > 0 {
      EachArrives(events, m, room, at, i - 1);
      ArrivedGrows(events, m, room, at[i - 1] + 1, at[i]);
    }
  }

  /** The event that brings the last frame. */
  lemma LastArrival(events: seq<Event>, m: Message, room: nat, n: nat) returns (k: nat)
    requires n <= |events| && !Whole(m, room, 0) && Whole(m, room, Arrived(events, m, room, n))
    ensures k < n && !Whole(m, room, Arrived(events, m, room, k)) && Whole(m, room, Arrived(events, m, room, k + 1))
  {
    hide Cut, Whole, Further;
    k := n - 1;
    while Whole(m, room, Arrived(events, m, room, k))
      invariant k < n && Whole(m, room, Arrived(events, m, room, k + 1))
      decreases k
    {
      k := k - 1;
    }
  }

  /** If the frames of a message arrive in order, it is completed, no matter how many other frames, copies or ticks come
      in between. */
  lemma InterleavedDelivery(states: seq<System>, events: seq<Event>, m: Message, room: nat, at: seq<nat>)
    returns (k: nat)
    requires Undisturbed(states, events, m, room) && InOrder(events, m, room, at)
    ensures k <= at[|at| - 1] < |events| < |states| && states[k + 1].completed == states[k].completed + [m]
  {
    var last := |at| - 1;
    EachArrives(events, m, room, at, last);
    WholeBy(m, room, |at|, Arrived(events, m, room, at[last] + 1));
    hide Cut, Arrived, Run, OwnFrames, Kept;
    k := LastArrival(events, m, room, at[last] + 1);
    CompletedWhenArrived(states, events, m, room, k);
  }

  lemma WholeBy(m: Message, room: nat, p: nat, q: nat)
    requires 0 < room && p <= q
    ensures Whole(m, room, p) ==> Whole(m, room, q)
  {
    Cuts(room, q, p);
  }

  // ---- every message can be delivered ----

  lemma RunMore(states: seq<System>, events: seq<Event>, e: Event)
    requires Run(states, events) && Inv(states[|events|]) && Enabled(states[|events|], e)
    ensures RxOk(states[|events|].rx) && Inv(Apply(states[|events|], e))
    ensures Run(states + [Apply(states[|events|], e)], events + [e])
  {
    hide Enabled, Inv;
    StepKeeps(states[|events|], e);
    var ss, es := states + [Apply(states[|events|], e)], events + [e];
    forall i | 0 <= i < |es|
      ensures StepAt(ss, es, i)
    {
      assert i < |events| ==> StepAt(states, events, i);
    }
  }

  /** A run from the empty system in which the first q frames of m have come in. */
  ghost predicate Delivering(states: seq<System>, events: seq<Event>, m: Message, room: nat, q: nat) {
    && Run(states, events) && states[0] == System([], {}, [], {})
    && var l := states[|events|];
       && Inv(l) && m in l.live
       && if Whole(m, room, q) then l.completed == [m] else l.completed == [] && Midway(l.rx, m, room, q)
  }

  lemma Launched(m: Message, room: nat)
    requires m.Ok() && 0 < room
    ensures var s, e := System([], {}, [], {}), Launch(m);
            Enabled(s, e) && RxOk(s.rx) && Delivering([s, Apply(s, e)], [e], m, room, 0)
  {
    var s, e := System([], {}, [], {}), Launch(m);
    RunMore([s], [], e);
    assert [s] + [Apply(s, e)] == [s, Apply(s, e)] && [] + [e] == [e];
    StartsMidway(Apply(s, e).rx, m, room);
  }

  lemma OneFrameMore(states: seq<System>, events: seq<Event>, m: Message, room: nat, q: nat)
    requires Delivering(states, events, m, room, q) && m.Ok() && 0 < room && !Whole(m, room, q)
    ensures q < |m.data|
    ensures var l, e := states[|events|], FrameEvent(m, room, q);
            Enabled(l, e) && RxOk(l.rx) && Delivering(states + [Apply(l, e)], events + [e], m, room, q + 1)
  {
    hide Midway, Enabled, Whole, Inv, Further, OfStream, IsFrame;
    var l, e := states[|events|], FrameEvent(m, room, q);
    NextEnabled(l, m, room, q);
    InvRx(l);
    EventMidway(l, e, m, room, q);
    RunMore(states, events, e);
    Quiet(l, m, room, q);
  }

  /** Short of the last frame, nothing is completed. */
  lemma Quiet(s: System, m: Message, room: nat, q: nat)
    requires m.Ok() && 0 < room && !Whole(m, room, q)
    requires RxOk(s.rx) && Midway(s.rx, m, room, q) && Enabled(s, FrameEvent(m, room, q)) && m in s.live
    ensures var t := Apply(s, FrameEvent(m, room, q));
            t.live == s.live && (!Whole(m, room, q + 1) ==> t.completed == s.completed)
  {
    var e := FrameEvent(m, room, q);
    NextEnabled(s, m, room, q);
    FrameSize(s, e);
    OwnFrame(s.rx, m, room, q, q, e);
    hide Receive, Midway, Whole, FragmentOf, Fragment;
  }

  /** From the empty system there is a run that completes the message: its launch and its frames in order. */
  lemma Delivers(m: Message, room: nat) returns (states: seq<System>, events: seq<Event>)
    requires m.Ok() && 0 < room
    ensures Run(states, events) && states[0] == System([], {}, [], {}) && states[|events|].completed == [m]
  {
    var s, e := System([], {}, [], {}), Launch(m);
    Launched(m, room);
    states, events := [s, Apply(s, e)], [e];
    var q := 0;
    hide Enabled, Whole, Midway, Inv, Apply, FrameEvent;
    while !Whole(m, room, q)
      invariant Delivering(states, events, m, room, q) && q <= |m.data|
      decreases |m.data| - q
    {
      OneFrameMore(states, events, m, room, q);
      var f := FrameEvent(m, room, q);
      states, events := states + [Apply(states[|events|], f)], events + [f];
      q := q + 1;
    }
  }

  /** The q-th frame of message m. */
  function FrameEvent(m: Message, room: nat, q: nat): Event
    requires !Whole(m, room, q)
  {
    Frame(m.source, Fragment(m, Cut(room, q), NextLen(room, |m.data|, Cut(room, q))), true)
  }

  lemma NextEnabled(s: System, m: Message, room: nat, q: nat)
    requires m.Ok() && 0 < room && m in s.live && !Whole(m, room, q)
    ensures q < |m.data|
    ensures var e := FrameEvent(m, room, q);
            Enabled(s, e) && OfStream(e, m) && IsFrame(m, room, q, e.frame) && Further(q, e, m, room) == q + 1
  {
    var e := FrameEvent(m, room, q);
    FrameOffset(m, room, q, e.frame);
    CutAtLeast(room, q);
    hide Fragment, ParseHeader, Cut;
    assert FragmentOf(m, e.frame);
  }

  lemma CutAtLeast(room: nat, q: nat)
    requires 0 < room
    ensures Cut(room, q) >= q
  {
  }

  // ---- a message that stays incomplete ----

  /** At most one stream of this sender and tag. */
  predicate Alone(rx: Rx, source: nat, tag: nat) {
    forall i, j :: 0 <= i < j < |rx| ==>
      !(rx[i].source == rx[j].source == source && rx[i].tag == rx[j].tag == tag)
  }

  /** Stream j after a tick: one older, or from behind the one that is gone. */
  predicate CameFrom(rx: Rx, r: Rx, j: nat)
    requires j < |r|
  {
    if j < FirstOld(rx) then r[j] == rx[j].(age := rx[j].age + 1) else j + 1 < |rx| && r[j] == rx[j + 1]
  }

  lemma TickedAt(rx: Rx, j: nat)
    requires j < |Ticked(rx)|
    ensures |Ticked(rx)| == (if FirstOld(rx) < |rx| then |rx| - 1 else |rx|) && CameFrom(rx, Ticked(rx), j)
  {
  }

  lemma TickWaits(rx: Rx, source: nat, tag: nat)
    requires Alone(rx, source, tag)
    requires forall j :: 0 <= j < Find(rx, source, tag) ==> rx[j].age < 10
    ensures var f, r := Find(rx, source, tag), Ticked(rx);
            && Alone(r, source, tag)
            && if f >= 0 && rx[f].age < 10 then Find(r, source, tag) == f && r[f] == rx[f].(age := rx[f].age + 1)
               else Find(r, source, tag) < 0
  {
    var r, f := Ticked(rx), Find(rx, source, tag);
    assert f >= 0 && rx[f].age < 10 ==> f < FirstOld(rx) && f < |r|;
    hide Ticked, Find, FirstOld;
    forall j | 0 <= j < |r|
      ensures CameFrom(rx, r, j)
    {
      TickedAt(rx, j);
    }
    assert f >= 0 && rx[f].age < 10 ==> CameFrom(rx, r, f);
    forall i, j | 0 <= i < j < |r|
      ensures !(r[i].source == r[j].source == source && r[i].tag == r[j].tag == tag)
    {
      assert CameFrom(rx, r, i) && CameFrom(rx, r, j);
    }
    if Find(r, source, tag) >= 0 {
      assert CameFrom(rx, r, Find(r, source, tag));
    }
  }

  /** A frame of another stream changes, adds or removes another stream. */
  lemma ContinueAlone(rx: Rx, k: nat, h: Header, data: seq<byte>, source: nat, tag: nat)
    requires k < |rx| && |rx[k].data| <= rx[k].size && Alone(rx, source, tag)
    requires !(rx[k].source == source && rx[k].tag == tag)
    ensures Alone(Continue(rx, k, h, data).0, source, tag)
  {
  }

  lemma OtherAlone(rx: Rx, source: nat, frame: seq<byte>, room: bool, source2: nat, tag2: nat)
    requires |frame| >= HEADER_SIZE && RxOk(rx) && (source != source2 || ParseHeader(frame).tag != tag2)
    requires Alone(rx, source2, tag2)
    ensures Alone(Receive(rx, source, frame, room).0, source2, tag2)
  {
    hide ParseHeader, Continue;
    var h, data := ParseHeader(frame), frame[HEADER_SIZE..];
    var i := Find(rx, source, h.tag);
    if i >= 0 {
      ContinueAlone(rx, i, h, data, source2, tag2);
    } else {
      var more := [Partial(h.flags, 0, h.tag, source, h.size, [])] + rx;
      assert forall i :: 0 < i < |more| ==> more[i] == rx[i - 1];
      ContinueAlone(more, 0, h, data, source2, tag2);
    }
  }

  function Ticks(events: seq<Event>, k: nat): nat
    requires k <= |events|
  {
    if k == 0 then 0 else Ticks(events, k - 1) + if events[k - 1].Timeout? then 1 else 0
  }

  /** No stream in front of this one is about to expire. */
  predicate NoneAhead(rx: Rx, source: nat, tag: nat) {
    forall j :: 0 <= j < Find(rx, source, tag) ==> rx[j].age < 10
  }

  /** A run in which nothing comes in for a new stream p, and at no tick a stream in front of it is about to expire. */
  ghost predicate LeftAlone(states: seq<System>, events: seq<Event>, p: Partial) {
    && Run(states, events) && Waits(states[0].rx, p, 0)
    && (forall k :: 0 <= k < |events| ==> !OfKey(events[k], p))
    && forall k :: 0 <= k < |events| && events[k].Timeout? ==> NoneAhead(states[k].rx, p.source, p.tag)
  }

  predicate OfKey(e: Event, p: Partial) {
    e.Frame? && |e.frame| >= HEADER_SIZE && e.source == p.source && ParseHeader(e.frame).tag == p.tag
  }

  /** After n ticks stream p is n ticks old; after the eleventh it is gone. */
  predicate Waits(rx: Rx, p: Partial, n: nat) {
    var f := Find(rx, p.source, p.tag);
    && Alone(rx, p.source, p.tag)
    && if n <= 10 then f >= 0 && rx[f] == p.(age := n) else f < 0
  }

  lemma EventWaits(s: System, e: Event, p: Partial, n: nat)
    requires Enabled(s, e) && RxOk(s.rx) && Waits(s.rx, p, n) && !OfKey(e, p)
    requires e.Timeout? ==> NoneAhead(s.rx, p.source, p.tag)
    ensures Waits(Apply(s, e).rx, p, n + if e.Timeout? then 1 else 0)
  {
    hide Receive, Fragment, ParseHeader, FragmentOf, Tick, Ticked, Alone, Find;
    if e.Timeout? {
      TickedIs(s.rx);
      TickWaits(s.rx, p.source, p.tag);
    } else if e.Frame? {
      FrameSize(s, e);
      OtherStreams(s.rx, e.source, e.frame, e.room, p.source, p.tag);
      OtherAlone(s.rx, e.source, e.frame, e.room, p.source, p.tag);
    }
  }

  /** A stream for which nothing more comes in is there up to its tenth tick and gone from the eleventh on; so it blocks
      its sender and tag for no longer than that. */
  lemma {:induction false} TimesOut(states: seq<System>, events: seq<Event>, p: Partial, k: nat)
    requires LeftAlone(states, events, p) && k <= |events|
    ensures Waits(states[k].rx, p, Ticks(events, k))
    ensures Find(states[k].rx, p.source, p.tag) >= 0 <==> Ticks(events, k) <= 10
  {
    hide Find, Enabled, Apply, Alone, OfKey, NoneAhead;
    if k > 0 {
      TimesOut(states, events, p, k - 1);
      assert StepAt(states, events, k - 1);
      EventWaits(states[k - 1], events[k - 1], p, Ticks(events, k - 1));
    }
  }
}
