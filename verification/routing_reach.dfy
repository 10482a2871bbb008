/** The other direction of route discovery: every usable path can be found. */
module RouteReach {
  import opened Bytes
  import opened RouteMessages
  import opened RouteNetwork

  lemma Hop(w: World, path: seq<nat>, q: Query, key: Key, i: nat)
    requires Usable(w, path, q, key) && i + 1 < |path|
    ensures path[i] in w.nodes && path[i + 1] in w.nodes && path[i] != path[i + 1]
    ensures w.hears(path[i], path[i + 1]) && w.hears(path[i + 1], path[i])
  {
    assert Connected(w, path, i);
  }

  /** What the invariant and the path say about one node of it. */
  lemma Station(w: World, s: Net, path: seq<nat>, q: Query, key: Key, i: nat)
    requires Inv(w, s) && Usable(w, path, q, key) && i < |path|
    ensures w.Ok() && path[i] in w.nodes && w.nodes[path[i]].addr == path[i] && |path| <= MAXIMUM_HOPS && Distinct(path)
    ensures 0 < i < |path| - 1 ==> w.nodes[path[i]].routing && path[0] != path[i]
    ensures i == |path| - 1 ==> i > 0 && w.nodes[path[i]].Answers(q) && w.nodes[path[i]].hasIp(path[i - 1])
  {
  }

  /** Only the node that receives a message can learn a key from it. */
  lemma OthersUnseen(w: World, s: Net, path: seq<nat>, key: Key, i: nat, p: Packet)
    requires Deliverable(w, s, p) && i < |path| && p.dst == path[i] && Distinct(path) && Unseen(s, path, key, i)
    ensures Unseen(Arrive(w, s, p), path, key, i + 1)
  {
    hide Forwarded, PassedOn;
  }

  /** Nodes from position i on have not seen the key. */
  ghost predicate Unseen(s: Net, path: seq<nat>, key: Key, i: nat) {
    forall j :: i <= j < |path| ==> path[j] in s.caches && key !in s.caches[path[j]].entries
  }

  lemma FirstUnseen(s: Net, path: seq<nat>, key: Key, i: nat)
    requires i < |path| && Unseen(s, path, key, i)
    ensures path[i] in s.caches && key !in s.caches[path[i]].entries
  {
  }

  lemma {:induction false} CopyReaches(w: World, src: nat, dst: nat, msg: Message, ids: seq<nat>)
    requires dst in ids && dst != src && w.hears(dst, src)
    ensures Packet(src, dst, msg) in Copies(w, src, msg, ids)
  {
    if dst != ids[|ids| - 1] {
      CopyReaches(w, src, dst, msg, ids[..|ids| - 1]);
    }
  }

  /** Both ways of sending a reply reach the hop it is meant for. */
  lemma SendReaches(w: World, src: nat, dst: nat, msg: Message)
    requires w.Ok() && dst in w.nodes && dst != src && w.hears(dst, src)
    ensures Packet(src, dst, msg) in Broadcast(w, src, msg) && Packet(src, dst, msg) in Unicast(w, src, dst, msg)
  {
    CopyReaches(w, src, dst, msg, w.ids);
  }

  lemma ReplyReaches(w: World, n: Node, m: Rreq, op: ReqOp, r: Rreq, dst: nat)
    requires w.Ok() && m.Ok() && (op, r) == ProcessRreq(n, m, false) && (op == ReqDest || op == ReqProxy)
    requires var rep := InitRrep(n, r, op == ReqProxy); rep.hops[rep.hopIndex] == dst && n.hasIp(dst)
    requires dst in w.nodes && dst != n.addr && w.hears(dst, n.addr)
    ensures Packet(n.addr, dst, Rep(InitRrep(n, r, op == ReqProxy))) in Forwarded(w, n, m, op, r)
  {
    hide Broadcast;
    SendReaches(w, n.addr, dst, Rep(InitRrep(n, r, op == ReqProxy)));
  }

  lemma PassedReaches(w: World, n: Node, r: Rrep, dst: nat)
    requires w.Ok() && r.hopIndex < |r.hops| && r.hops[r.hopIndex] == dst
    requires dst in w.nodes && dst != n.addr && w.hears(dst, n.addr)
    ensures Packet(n.addr, dst, Rep(r)) in PassedOn(w, n, RepForward, r)
  {
    SendReaches(w, n.addr, dst, Rep(r));
  }

  lemma RunCons(w: World, s: Net, e: Event, states: seq<Net>, events: seq<Event>)
    requires Enabled(w, s, e) && (e.Deliver? ==> Deliverable(w, s, e.p))
    requires Run(w, states, events) && states[0] == Apply(w, s, e)
    ensures Run(w, [s] + states, [e] + events)
  {
    var ss, es := [s] + states, [e] + events;
    forall i | 0 <= i < |es|
      ensures StepAt(w, ss, es, i)
    {
      if i > 0 {
        assert StepAt(w, states, events, i - 1);
      }
    }
  }

  // ---- the request on its way out ----

  /** The copy for path[i + 1] is in flight, having come along path[..i + 1]. */
  ghost predicate Outbound(w: World, s: Net, path: seq<nat>, q: Query, key: Key, i: nat, m: Rreq) {
    && i + 1 < |path| <= MAXIMUM_HOPS && m.Ok() && m.Path() == path[..i + 1] && m.tag == key.tag && m.query == q
    && Packet(path[i], path[i + 1], Req(m)) in s.flight
    && Unseen(s, path, key, i + 1)
  }

  lemma NextNode(w: World, s: Net, path: seq<nat>, q: Query, key: Key, i: nat, m: Rreq)
    requires w.Ok() && Usable(w, path, q, key) && Outbound(w, s, path, q, key, i, m)
    ensures var n := w.nodes[path[i + 1]];
            var (op, r) := ProcessRreq(n, m, false);
            && n.addr == path[i + 1] && ConsultsCache(n, m) && Key(m.hops[0], m.tag) == key
            && r.Ok() && r.Path() == path[..i + 2] && r.tag == key.tag && r.query == q
            && (if i + 2 < |path| then op == ReqForward else op == if n.proxies(q) then ReqProxy else ReqDest)
  {
    var n := w.nodes[path[i + 1]];
    var (op, r) := ProcessRreq(n, m, false);
    assert m.Path()[0] == path[0];
    NotBefore(path, i + 1);
    assert r.Path() == m.Path() + [path[i + 1]] == path[..i + 2];
  }

  lemma NotBefore(path: seq<nat>, i: nat)
    requires Distinct(path) && i < |path|
    ensures path[i] !in path[..i]
  {
  }

  lemma OutboundStep(w: World, s: Net, path: seq<nat>, q: Query, key: Key, i: nat, m: Rreq) returns (t: Net, r: Rreq)
    requires Inv(w, s) && Usable(w, path, q, key) && Outbound(w, s, path, q, key, i, m) && i + 2 < |path|
    ensures var p := Packet(path[i], path[i + 1], Req(m));
            && Enabled(w, s, Deliver(p)) && Deliverable(w, s, p) && t == Apply(w, s, Deliver(p))
    ensures Inv(w, t) && Outbound(w, t, path, q, key, i + 1, r) && t.asked == s.asked
  {
    hide Inv, Usable, Distinct, Broadcast, Unicast, Unseen, World.Ok, ProcessRreq;
    var p := Packet(path[i], path[i + 1], Req(m));
    StepKeeps(w, s, Deliver(p));
    Station(w, s, path, q, key, i + 1);
    NextNode(w, s, path, q, key, i, m);
    FirstUnseen(s, path, key, i + 1);
    Hop(w, path, q, key, i + 1);
    t := Apply(w, s, Deliver(p));
    r := ProcessRreq(w.nodes[path[i + 1]], m, false).1;
    OthersUnseen(w, s, path, key, i + 1, p);
    SendReaches(w, path[i + 1], path[i + 2], Req(r));
  }

  // ---- the reply on its way back ----

  /** The copy for path[k] is in flight. */
  ghost predicate Inbound(w: World, s: Net, path: seq<nat>, key: Key, k: nat, m: Rrep) {
    && k + 1 < |path| && m.Ok() && m.Path() == path && m.tag == key.tag && m.hopIndex == k
    && Packet(path[k + 1], path[k], Rep(m)) in s.flight
  }

  lemma Answering(w: World, s: Net, path: seq<nat>, q: Query, key: Key, m: Rreq) returns (t: Net, rep: Rrep)
    requires Inv(w, s) && Usable(w, path, q, key) && |path| >= 2 && Outbound(w, s, path, q, key, |path| - 2, m)
    ensures var p := Packet(path[|path| - 2], path[|path| - 1], Req(m));
            && Enabled(w, s, Deliver(p)) && Deliverable(w, s, p) && t == Apply(w, s, Deliver(p))
    ensures Inv(w, t) && Inbound(w, t, path, key, |path| - 2, rep) && t.asked == s.asked
    ensures var last := w.nodes[path[|path| - 1]]; rep.query == ReplyQuery(last, q, last.proxies(q))
  {
    hide Inv, Usable, Distinct, Unseen, World.Ok, ProcessRreq, Forwarded, Node.Answers;
    var i := |path| - 2;
    var p := Packet(path[i], path[i + 1], Req(m));
    StepKeeps(w, s, Deliver(p));
    Station(w, s, path, q, key, i + 1);
    FirstUnseen(s, path, key, i + 1);
    NextNode(w, s, path, q, key, i, m);
    Hop(w, path, q, key, i);
    t := Apply(w, s, Deliver(p));
    var n := w.nodes[path[i + 1]];
    var (op, r) := ProcessRreq(n, m, false);
    assert path[..i + 2] == path;
    rep := InitRrep(n, r, op == ReqProxy);
    AnswerIs(n, r, op == ReqProxy, path);
    hide InitRrep;
    ReplyReaches(w, n, m, op, r, path[i]);
  }

  lemma AnswerIs(n: Node, r: Rreq, proxy: bool, path: seq<nat>)
    requires r.Ok() && r.Path() == path && 2 <= |path|
    ensures var rep := InitRrep(n, r, proxy);
            && rep.Ok() && rep.Path() == path && rep.hopIndex == |path| - 2
                && rep.hops[rep.hopIndex] == path[|path| - 2]
            && rep.tag == r.tag && rep.query == ReplyQuery(n, r.query, proxy)
  {
    var rep := InitRrep(n, r, proxy);
    assert rep.Path() == r.Path();
    assert rep.hops[rep.hopIndex] == rep.Path()[rep.hopIndex];
  }

  lemma BackNode(n: Node, path: seq<nat>, m: Rrep, k: nat)
    requires m.Ok() && m.Path() == path && 0 < k == m.hopIndex && n.addr == path[k] != path[0] && n.routing
    ensures var (op, r) := ProcessRrep(n, m);
            && op == RepForward && r.Ok() && r.Path() == path && r.hopIndex == k - 1 && r.hops[k - 1] == path[k - 1]
            && r.tag == m.tag && r.query == m.query
  {
    assert m.hops[k] == path[k] && m.hops[0] == path[0];
    var r := ProcessRrep(n, m).1;
    assert r.Path() == m.Path() && r.hops[k - 1] == r.Path()[k - 1];
  }

  lemma SentOn(w: World, s: Net, p: Packet, x: Packet)
    requires p in s.flight && Deliverable(w, s, p) && p.msg.Rep?
    requires var (op, r) := ProcessRrep(w.nodes[p.dst], p.msg.rep); x in PassedOn(w, w.nodes[p.dst], op, r)
    ensures x in Apply(w, s, Deliver(p)).flight
  {
    hide ProcessRrep, PassedOn;
  }

  lemma NothingAsked(w: World, s: Net, p: Packet)
    requires p in s.flight && Deliverable(w, s, p)
    ensures Apply(w, s, Deliver(p)).asked == s.asked
  {
    hide Forwarded, PassedOn;
  }

  lemma InboundStep(w: World, s: Net, path: seq<nat>, q: Query, key: Key, k: nat, m: Rrep) returns (t: Net, r: Rrep)
    requires Inv(w, s) && Usable(w, path, q, key) && Inbound(w, s, path, key, k, m) && k > 0
    ensures var p := Packet(path[k + 1], path[k], Rep(m));
            && Enabled(w, s, Deliver(p)) && Deliverable(w, s, p) && t == Apply(w, s, Deliver(p))
    ensures Inv(w, t) && Inbound(w, t, path, key, k - 1, r) && r.query == m.query && t.asked == s.asked
  {
    hide Inv, Usable, Distinct, World.Ok, PassedOn, ProcessRrep, Apply, Deliverable;
    var p := Packet(path[k + 1], path[k], Rep(m));
    StepKeeps(w, s, Deliver(p));
    Station(w, s, path, q, key, k);
    Hop(w, path, q, key, k - 1);
    t := Apply(w, s, Deliver(p));
    var n := w.nodes[path[k]];
    BackNode(n, path, m, k);
    r := ProcessRrep(n, m).1;
    PassedReaches(w, n, r, path[k - 1]);
    SentOn(w, s, p, Packet(path[k], path[k - 1], Rep(r)));
    NothingAsked(w, s, p);
  }

  lemma Accepting(w: World, s: Net, path: seq<nat>, q: Query, key: Key, m: Rrep) returns (t: Net, r: Rrep)
    requires Inv(w, s) && Usable(w, path, q, key) && Inbound(w, s, path, key, 0, m)
    requires var last := w.nodes[path[|path| - 1]]; m.query == ReplyQuery(last, q, last.proxies(q))
    ensures var p := Packet(path[1], path[0], Rep(m));
            && Enabled(w, s, Deliver(p)) && Deliverable(w, s, p) && t == Apply(w, s, Deliver(p))
    ensures Inv(w, t) && t.asked == s.asked && r in t.routes && r.Ok() && r.Path() == path && r.tag == key.tag
        && r.query == m.query
  {
    var p := Packet(path[1], path[0], Rep(m));
    StepKeeps(w, s, Deliver(p));
    assert w.Ok();
    hide Inv;
    t := Apply(w, s, Deliver(p));
    assert m.Path()[0] == m.hops[0] == path[0];
    r := ProcessRrep(w.nodes[path[0]], m).1;
    assert r.Path() == m.Path();
  }

  // ---- the whole run ----

  lemma {:induction false} ComeBack(w: World, s: Net, path: seq<nat>, q: Query, key: Key, k: nat, m: Rrep)
    returns (states: seq<Net>, events: seq<Event>, r: Rrep)
    requires Inv(w, s) && Usable(w, path, q, key) && k + 1 < |path| && Inbound(w, s, path, key, k, m)
    requires var last := w.nodes[path[|path| - 1]]; m.query == ReplyQuery(last, q, last.proxies(q))
    ensures Run(w, states, events) && states[0] == s
    ensures r in states[|events|].routes && r.Ok() && r.Path() == path && r.tag == key.tag && r.query == m.query
    ensures Inv(w, states[|events|]) && states[|events|].asked == s.asked
    decreases k
  {
    hide Usable, Inv, Inbound, Apply, StepAt;
    var p := Packet(path[k + 1], path[k], Rep(m));
    if k == 0 {
      var t;
      t, r := Accepting(w, s, path, q, key, m);
      Still(w, t);
      states, events := [t], [];
      RunCons(w, s, Deliver(p), states, events);
    } else {
      var t, m1 := InboundStep(w, s, path, q, key, k, m);
      states, events, r := ComeBack(w, t, path, q, key, k - 1, m1);
      RunCons(w, s, Deliver(p), states, events);
    }
    states, events := [s] + states, [Deliver(p)] + events;
  }

  lemma Still(w: World, s: Net)
    ensures Run(w, [s], [])
  {
  }

  lemma {:induction false} GoOut(w: World, s: Net, path: seq<nat>, q: Query, key: Key, i: nat, m: Rreq)
    returns (states: seq<Net>, events: seq<Event>, r: Rrep)
    requires Inv(w, s) && Usable(w, path, q, key) && Outbound(w, s, path, q, key, i, m)
    ensures Run(w, states, events) && states[0] == s
    ensures r in states[|events|].routes && r.Ok() && r.Path() == path && r.tag == key.tag
    ensures Inv(w, states[|events|]) && states[|events|].asked == s.asked
    decreases |path| - i
  {
    hide Usable, Inv, Inbound, Apply, StepAt;
    var p := Packet(path[i], path[i + 1], Req(m));
    if i + 2 < |path| {
      var t, m1 := OutboundStep(w, s, path, q, key, i, m);
      states, events, r := GoOut(w, t, path, q, key, i + 1, m1);
      RunCons(w, s, Deliver(p), states, events);
    } else {
      var t, rep := Answering(w, s, path, q, key, m);
      states, events, r := ComeBack(w, t, path, q, key, i, rep);
      RunCons(w, s, Deliver(p), states, events);
    }
    states, events := [s] + states, [Deliver(p)] + events;
  }

  /** From any consistent state, whatever else is in flight, a node that asks can learn every usable path to an answer:
      there is a run that ends with exactly this path in its routes, under the tag it asked with. */
  lemma EveryUsablePathIsFound(w: World, s: Net, path: seq<nat>, q: Query, tag: nat)
    returns (states: seq<Net>, events: seq<Event>, r: Rrep)
    requires Inv(w, s) && path != [] && Usable(w, path, q, Key(path[0], tag)) && Unseen(s, path, Key(path[0], tag), 1)
    ensures Run(w, states, events) && states[0] == s && events != [] && events[0] == Ask(path[0], q, tag)
    ensures r in states[|events|].routes && r.Ok() && r.Path() == path && r.tag == tag
    ensures Inv(w, states[|events|]) && states[|events|].asked == s.asked + {(path[0], tag, q)}
  {
    hide Inv, Usable, Unseen, Apply, StepAt, Outbound;
    var key, e := Key(path[0], tag), Ask(path[0], q, tag);
    var t, m := Asking(w, s, path, q, key);
    states, events, r := GoOut(w, t, path, q, key, 0, m);
    RunCons(w, s, e, states, events);
    states, events := [s] + states, [e] + events;
  }

  lemma SameCaches(s: Net, t: Net, path: seq<nat>, key: Key)
    requires Unseen(s, path, key, 1) && t.caches == s.caches
    ensures Unseen(t, path, key, 1)
  {
  }

  lemma Asking(w: World, s: Net, path: seq<nat>, q: Query, key: Key) returns (t: Net, m: Rreq)
    requires Inv(w, s) && path != [] && Usable(w, path, q, key) && Unseen(s, path, key, 1)
    ensures Enabled(w, s, Ask(path[0], q, key.tag)) && t == Apply(w, s, Ask(path[0], q, key.tag))
    ensures Inv(w, t) && Outbound(w, t, path, q, key, 0, m) && t.asked == s.asked + {(path[0], key.tag, q)}
  {
    assert w.Ok() && 2 <= |path| <= MAXIMUM_HOPS && w.nodes[path[0]].addr == path[0];
    assert path[..1] == [path[0]];
    Hop(w, path, q, key, 0);
    hide Inv, Usable, Broadcast, World.Ok, Distinct, Unseen;
    m, t := InitRreq(w.nodes[path[0]], q, key.tag), Apply(w, s, Ask(path[0], q, key.tag));
    AskKeeps(w, s, path[0], q, key.tag);
    SendReaches(w, path[0], path[1], Req(m));
    SameCaches(s, t, path, key);
    assert m.Path() == [path[0]] == path[..1];
  }

  // ---- exactly the usable paths ----

  /** Some run from a start state ends with this path among the routes its origin learned for this query and tag. */
  ghost predicate Findable(w: World, path: seq<nat>, q: Query, tag: nat) {
    exists states, events, m :: Found(w, path, q, tag, states, events, m)
  }

  ghost predicate Found(w: World, path: seq<nat>, q: Query, tag: nat, states: seq<Net>, events: seq<Event>, m: Rrep) {
    && Run(w, states, events) && Initial(w, states[0])
    && m in states[|events|].routes && m.Ok() && m.Path() == path && m.tag == tag
    && AnsweredBy(w, states[|events|], m, q)
  }

  /** A start state in which no node has seen the key. */
  function Start(w: World, key: Key): Net {
    Net(map a | a in w.nodes :: Cache(seq(REPLAY_ENTRIES, i => Key(key.source + 1, 0)), 0), multiset{}, {}, {})
  }

  lemma StartOk(w: World, path: seq<nat>, key: Key)
    requires w.Ok() && forall i :: 0 <= i < |path| ==> path[i] in w.nodes
    ensures Initial(w, Start(w, key)) && Inv(w, Start(w, key)) && Unseen(Start(w, key), path, key, 1)
  {
  }

  /** Among all paths, discovery can find exactly the usable ones. */
  lemma FindsExactlyTheUsable(w: World, path: seq<nat>, q: Query, tag: nat)
    requires w.Ok() && path != []
    ensures Findable(w, path, q, tag) <==> Usable(w, path, q, Key(path[0], tag))
  {
    if Findable(w, path, q, tag) {
      var states, events, m :| Found(w, path, q, tag, states, events, m);
      LearnedRoutes(w, states, events, |events|, m);
    }
    if Usable(w, path, q, Key(path[0], tag)) {
      UsableFound(w, path, q, tag);
    }
  }

  lemma UsableFound(w: World, path: seq<nat>, q: Query, tag: nat)
    requires w.Ok() && path != [] && Usable(w, path, q, Key(path[0], tag))
    ensures Findable(w, path, q, tag)
  {
    StartOk(w, path, Key(path[0], tag));
    var s := Start(w, Key(path[0], tag));
    var states, events, m := EveryUsablePathIsFound(w, s, path, q, tag);
    var t := states[|events|];
    hide Usable, Unseen, Run;
    assert RouteOk(w, t, m);
    var p :| AnsweredBy(w, t, m, p);
    assert m.hops[0] == m.Path()[0] && p == q;
    assert Found(w, path, q, tag, states, events, m);
  }
}
