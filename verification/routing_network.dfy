/** Route discovery as a network of nodes exchanging messages that may be delayed, reordered or lost. */
module RouteNetwork {
  import opened Bytes
  import opened RouteMessages

  /** The nodes by address, and who can receive whose transmissions: hears(b, a) if b hears a. */
  datatype World = World(ids: seq<nat>, nodes: map<nat, Node>, hears: (nat, nat) -> bool)
  {
    ghost predicate Ok() {
      && Distinct(ids) && (forall a :: a in ids <==> a in nodes)
      && (forall a :: a in nodes ==> nodes[a].addr == a)
      && (forall a, b :: a in nodes ==> nodes[a].cost(b) < 256)
    }
  }

  datatype Message = Req(req: Rreq) | Rep(rep: Rrep)

  /** One copy of a message on its way from one node to another. */
  datatype Packet = Packet(src: nat, dst: nat, msg: Message)

  /** Every query ever asked, with its origin and tag, and every reply accepted at its origin are remembered. */
  datatype Net = Net(caches: map<nat, Cache>, flight: multiset<Packet>, asked: set<(nat, nat, Query)>,
      routes: set<Rrep>)

  datatype Event = Ask(node: nat, query: Query, tag: nat) | Deliver(p: Packet) | Lose(p: Packet)

  // ---- transmission ----

  /** One copy to every other node in range. */
  function Copies(w: World, src: nat, msg: Message, ids: seq<nat>): multiset<Packet> {
    if ids == [] then multiset{}
    else
      var b := ids[|ids| - 1];
      Copies(w, src, msg, ids[..|ids| - 1])
      + (if b != src && w.hears(b, src) then multiset{Packet(src, b, msg)} else multiset{})
  }

  function Broadcast(w: World, src: nat, msg: Message): multiset<Packet> {
    Copies(w, src, msg, w.ids)
  }

  function Unicast(w: World, src: nat, dst: nat, msg: Message): multiset<Packet> {
    if dst in w.nodes && dst != src && w.hears(dst, src) then multiset{Packet(src, dst, msg)} else multiset{}
  }

  lemma {:induction false} CopiesAre(w: World, src: nat, msg: Message, ids: seq<nat>)
    ensures forall p :: p in Copies(w, src, msg, ids) ==>
              p.src == src && p.msg == msg && p.dst in ids && p.dst != src && w.hears(p.dst, src)
    ensures |Copies(w, src, msg, ids)| <= |ids|
  {
    if ids != [] {
      CopiesAre(w, src, msg, ids[..|ids| - 1]);
    }
  }

  // ---- steps ----

  predicate Enabled(w: World, s: Net, e: Event) {
    match e
    case Ask(n, _, _) => n in w.nodes
    case Deliver(p) => p in s.flight
    case Lose(p) => p in s.flight
  }

  /** The receiver exists and the message keeps its indexes inside the hop table. */
  predicate Deliverable(w: World, s: Net, p: Packet) {
    && p.dst in w.nodes && p.dst in s.caches && s.caches[p.dst].Ok()
    && if p.msg.Req? then p.msg.req.Ok() else p.msg.rep.Ok()
  }

  function Forwarded(w: World, n: Node, m: Rreq, op: ReqOp, r: Rreq): multiset<Packet>
    requires m.Ok() && (op, r) == ProcessRreq(n, m, false)
  {
    match op
    case ReqNoOp => multiset{}
    case ReqForward => Broadcast(w, n.addr, Req(r))
    case _ =>
      var rep := InitRrep(n, r, op == ReqProxy);
      if n.hasIp(rep.hops[rep.hopIndex]) then Unicast(w, n.addr, rep.hops[rep.hopIndex], Rep(rep)) else multiset{}
  }

  /** A reply goes to the previous hop; if its address is not known it is broadcast. */
  function PassedOn(w: World, n: Node, op: RepOp, r: Rrep): multiset<Packet>
    requires r.hopIndex < |r.hops|
  {
    if op != RepForward then multiset{}
    else if n.hasIp(r.hops[r.hopIndex]) then Unicast(w, n.addr, r.hops[r.hopIndex], Rep(r))
    else Broadcast(w, n.addr, Rep(r))
  }

  function Arrive(w: World, s: Net, p: Packet): Net
    requires Deliverable(w, s, p)
  {
    var n := w.nodes[p.dst];
    match p.msg
    case Req(m) =>
      var key := Key(m.hops[0], m.tag);
      var seen := key in s.caches[p.dst].entries;
      var caches := if ConsultsCache(n, m) then s.caches[p.dst := Remember(s.caches[p.dst], key)] else s.caches;
      var (op, r) := ProcessRreq(n, m, seen);
      s.(caches := caches, flight := s.flight - multiset{p} + (if seen then multiset{} else Forwarded(w, n, m, op, r)))
    case Rep(m) =>
      var (op, r) := ProcessRrep(n, m);
      s.(flight := s.flight - multiset{p} + PassedOn(w, n, op, r),
         routes := if op == RepDest then s.routes + {r} else s.routes)
  }

  function Apply(w: World, s: Net, e: Event): Net
    requires Enabled(w, s, e) && (e.Deliver? ==> Deliverable(w, s, e.p))
  {
    match e
    case Ask(n, q, tag) =>
      s.(flight := s.flight + Broadcast(w, n, Req(InitRreq(w.nodes[n], q, tag))), asked := s.asked + {(n, tag, q)})
    case Deliver(p) => Arrive(w, s, p)
    case Lose(p) => s.(flight := s.flight - multiset{p})
  }

  // ---- paths and costs ----

  /** Each hop heard the one before it, and every hop between the ends is a router. */
  predicate Links(w: World, path: seq<nat>) {
    && (forall i :: 0 <= i < |path| ==> path[i] in w.nodes)
    && (forall i :: 0 < i < |path| ==> w.hears(path[i], path[i - 1]))
    && (forall i :: 0 < i < |path| - 1 ==> w.nodes[path[i]].routing)
  }

  /** What each hop after the first charges for hearing the one before it. */
  function ReverseCost(w: World, path: seq<nat>): nat
    requires forall i :: 0 <= i < |path| ==> path[i] in w.nodes
  {
    if |path| <= 1 then 0
    else ReverseCost(w, path[..|path| - 1]) + w.nodes[path[|path| - 1]].cost(path[|path| - 2])
  }

  /** What each hop but the last charges for the next one. */
  function ForwardCost(w: World, path: seq<nat>): nat
    requires forall i :: 0 <= i < |path| ==> path[i] in w.nodes
  {
    if |path| <= 1 then 0 else w.nodes[path[0]].cost(path[1]) + ForwardCost(w, path[1..])
  }

  lemma {:induction false} CostsFit(w: World, path: seq<nat>)
    requires w.Ok() && forall i :: 0 <= i < |path| ==> path[i] in w.nodes
    ensures ReverseCost(w, path) <= 255 * |path| && ForwardCost(w, path) <= 255 * |path|
    decreases |path|
  {
    if |path| > 1 {
      CostsFit(w, path[..|path| - 1]);
      CostsFit(w, path[1..]);
    }
  }

  // ---- the invariant ----

  /** A router that passes the query on because it cannot answer it. */
  predicate Relay(w: World, a: nat, q: Query) {
    a in w.nodes && w.nodes[a].routing && !w.nodes[a].Answers(q)
  }

  /** A request in flight carries the path it took, and the cost of that path backwards. */
  ghost predicate ReqOk(w: World, s: Net, m: Rreq, src: nat) {
    && m.Ok() && Distinct(m.Path()) && Links(w, m.Path())
    && m.hops[m.hopCount - 1] == src
    && (forall i :: 0 < i < m.hopCount ==> Relay(w, m.hops[i], m.query))
    && m.forwardCost == 0 && m.reverseCost == ReverseCost(w, m.Path())
    && (m.hops[0], m.tag, m.query) in s.asked
  }

  /** The answer came from the last hop, to a query its origin asked under this tag and the other hops passed on. */
  ghost predicate Answered(w: World, s: Net, m: Rrep)
    requires m.Ok()
  {
    exists q :: AnsweredBy(w, s, m, q)
  }

  ghost predicate AnsweredBy(w: World, s: Net, m: Rrep, q: Query)
    requires m.Ok()
  {
    && (m.hops[0], m.tag, q) in s.asked
    && (forall i :: 0 < i < m.hopCount - 1 ==> Relay(w, m.hops[i], q))
    && var last := m.hops[m.hopCount - 1];
       && last in w.nodes && w.nodes[last].Answers(q) && w.nodes[last].hasIp(m.hops[m.hopCount - 2])
       && m.query == ReplyQuery(w.nodes[last], q, w.nodes[last].proxies(q))
  }

  /** The part of the path the reply has already come back along, walked from `from` to the responder. */
  ghost predicate Walked(w: World, m: Rrep, from: nat)
    requires m.Ok() && from < m.hopCount
  {
    && (forall i :: from <= i < m.hopCount ==> m.hops[i] in w.nodes)
    && (forall i :: from <= i < m.hopCount - 1 ==> w.hears(m.hops[i], m.hops[i + 1]))
    && m.forwardCost == ForwardCost(w, m.hops[from..m.hopCount])
  }

  ghost predicate RepOk(w: World, s: Net, m: Rrep, src: nat) {
    && m.Ok() && Distinct(m.Path()) && Links(w, m.Path())
    && m.hops[m.hopIndex + 1] == src
    && m.reverseCost == ReverseCost(w, m.Path())
    && Walked(w, m, m.hopIndex + 1)
    && Answered(w, s, m)
  }

  /** What an origin learns: a simple path of at most eight hops over links that work both ways, with both costs. */
  ghost predicate RouteOk(w: World, s: Net, m: Rrep) {
    && m.Ok() && 2 <= |m.Path()| <= MAXIMUM_HOPS && Distinct(m.Path()) && Links(w, m.Path())
    && (forall i :: 0 <= i < |m.Path()| - 1 ==> w.hears(m.Path()[i], m.Path()[i + 1]))
    && m.forwardCost == ForwardCost(w, m.Path())
    && m.reverseCost == ReverseCost(w, m.Path())
    && !w.nodes[m.hops[0]].isNeighbor(m.query.shortAddr)
    && Answered(w, s, m)
  }

  ghost predicate PacketOk(w: World, s: Net, p: Packet) {
    && p.src in w.nodes && p.dst in w.nodes && p.dst != p.src && w.hears(p.dst, p.src)
    && match p.msg
       case Req(m) => ReqOk(w, s, m, p.src)
       case Rep(m) => RepOk(w, s, m, p.src)
  }

  ghost predicate Inv(w: World, s: Net) {
    && w.Ok()
    && (forall a :: a in w.nodes ==> a in s.caches && s.caches[a].Ok())
    && (forall p :: p in s.flight ==> PacketOk(w, s, p))
    && (forall m :: m in s.routes ==> RouteOk(w, s, m))
  }

  /** Facts about a packet survive as more queries are asked. */
  lemma PacketStays(w: World, s: Net, t: Net, p: Packet)
    requires PacketOk(w, s, p) && s.asked <= t.asked
    ensures PacketOk(w, t, p)
  {
    if p.msg.Rep? {
      var q :| AnsweredBy(w, s, p.msg.rep, q);
      assert AnsweredBy(w, t, p.msg.rep, q);
    }
  }

  lemma RouteStays(w: World, s: Net, t: Net, m: Rrep)
    requires RouteOk(w, s, m) && s.asked <= t.asked
    ensures RouteOk(w, t, m)
  {
    var q :| AnsweredBy(w, s, m, q);
    assert AnsweredBy(w, t, m, q);
  }

  lemma AskKeeps(w: World, s: Net, n: nat, q: Query, tag: nat)
    requires Inv(w, s) && n in w.nodes
    ensures Inv(w, Apply(w, s, Ask(n, q, tag)))
  {
    hide ReqOk, RepOk, RouteOk, Broadcast;
    var t, m := Apply(w, s, Ask(n, q, tag)), InitRreq(w.nodes[n], q, tag);
    AskedOk(w, t, n, q, tag);
    SentOk(w, t, n, Req(m), 0);
    forall p | p in t.flight
      ensures PacketOk(w, t, p)
    {
      if p in s.flight {
        PacketStays(w, s, t, p);
      }
    }
    forall r | r in t.routes
      ensures RouteOk(w, t, r)
    {
      RouteStays(w, s, t, r);
    }
  }

  /** A new request has been nowhere but at its origin. */
  lemma AskedOk(w: World, s: Net, n: nat, q: Query, tag: nat)
    requires w.Ok() && n in w.nodes && (n, tag, q) in s.asked
    ensures ReqOk(w, s, InitRreq(w.nodes[n], q, tag), n)
  {
    assert InitRreq(w.nodes[n], q, tag).Path() == [n];
  }

  // ---- requests keep the invariant ----

  lemma PathGrows(w: World, path: seq<nat>, n: nat)
    requires w.Ok() && path != [] && Distinct(path) && Links(w, path) && n in w.nodes && n !in path
    requires w.hears(n, path[|path| - 1]) && (|path| > 1 ==> w.nodes[path[|path| - 1]].routing)
    ensures Distinct(path + [n]) && Links(w, path + [n]) && forall i :: 0 <= i <= |path| ==> (path + [n])[i] in w.nodes
    ensures forall i :: 0 <= i < |path| ==> path[i] in w.nodes
  {
  }

  lemma PathExtends(w: World, path: seq<nat>, n: nat)
    requires w.Ok() && path != [] && Distinct(path) && Links(w, path) && n in w.nodes && n !in path
    requires w.hears(n, path[|path| - 1]) && (|path| > 1 ==> w.nodes[path[|path| - 1]].routing)
    ensures Distinct(path + [n]) && Links(w, path + [n])
    ensures ReverseCost(w, path + [n]) == ReverseCost(w, path) + w.nodes[n].cost(path[|path| - 1])
    ensures ReverseCost(w, path + [n]) <= 255 * (|path| + 1)
  {
    hide Distinct, Links;
    PathGrows(w, path, n);
    CostsFit(w, path + [n]);
    assert (path + [n])[..|path|] == path;
  }

  /** The path after this node has added itself. */
  lemma ExtendedPath(w: World, s: Net, m: Rreq, src: nat, n: nat)
    requires w.Ok() && n in w.nodes && ReqOk(w, s, m, src) && w.hears(n, src) && src in w.nodes
    requires ProcessRreq(w.nodes[n], m, false).0 != ReqNoOp
    ensures var r := ProcessRreq(w.nodes[n], m, false).1;
            && r.Ok() && r.hopCount == m.hopCount + 1 && r.Path() == m.Path() + [n]
            && Distinct(r.Path()) && Links(w, r.Path()) && r.reverseCost == ReverseCost(w, r.Path())
            && r.forwardCost == 0 && (r.hops[0], r.tag, r.query) in s.asked
  {
    hide Distinct, Links, ReverseCost;
    var r := ProcessRreq(w.nodes[n], m, false).1;
    PathExtends(w, m.Path(), n);
    assert r.Path() == m.Path() + [n];
  }

  lemma ForwardedOk(w: World, s: Net, m: Rreq, src: nat, n: nat)
    requires w.Ok() && n in w.nodes && ReqOk(w, s, m, src) && w.hears(n, src) && src in w.nodes
    requires ProcessRreq(w.nodes[n], m, false).0 == ReqForward
    ensures ReqOk(w, s, ProcessRreq(w.nodes[n], m, false).1, n)
  {
    ExtendedPath(w, s, m, src, n);
    var r := ProcessRreq(w.nodes[n], m, false).1;
    assert Relay(w, n, m.query);
    hide Links, Distinct, ReverseCost, Node.Answers;
    forall i | 0 < i < r.hopCount
      ensures Relay(w, r.hops[i], r.query)
    {
      assert i < m.hopCount ==> r.hops[i] == m.hops[i] && Relay(w, m.hops[i], m.query);
    }
  }

  lemma ReplyOk(w: World, s: Net, m: Rreq, src: nat, n: nat)
    requires w.Ok() && n in w.nodes && ReqOk(w, s, m, src) && w.hears(n, src) && src in w.nodes
    requires ProcessRreq(w.nodes[n], m, false).0 in {ReqDest, ReqProxy} && w.nodes[n].hasIp(src)
    ensures var (op, r) := ProcessRreq(w.nodes[n], m, false);
            r.Ok() && r.hopCount >= 2 && RepOk(w, s, InitRrep(w.nodes[n], r, op == ReqProxy), n)
  {
    hide Distinct, Links, ReverseCost;
    ExtendedPath(w, s, m, src, n);
    var (op, r) := ProcessRreq(w.nodes[n], m, false);
    var rep := InitRrep(w.nodes[n], r, op == ReqProxy);
    assert rep.Path() == r.Path();
    assert rep.hops[0] == r.hops[0] && rep.hops[rep.hopCount - 1] == r.Path()[rep.hopCount - 1] == n;
    forall i | 0 < i < rep.hopCount - 1
      ensures Relay(w, rep.hops[i], m.query)
    {
      assert rep.hops[i] == m.hops[i];
    }
    assert rep.hops[rep.hopCount - 2] == m.hops[m.hopCount - 1] == src;
    assert AnsweredBy(w, s, rep, m.query);
    hide AnsweredBy, Relay;
    assert rep.hops[rep.hopIndex + 1..rep.hopCount] == [n];
  }

  lemma SentOk(w: World, s: Net, n: nat, msg: Message, dst: nat)
    requires w.Ok() && n in w.nodes
    requires match msg case Req(m) => ReqOk(w, s, m, n) case Rep(m) => RepOk(w, s, m, n)
    ensures forall p :: p in Broadcast(w, n, msg) ==> PacketOk(w, s, p)
    ensures forall p :: p in Unicast(w, n, dst, msg) ==> PacketOk(w, s, p)
  {
    CopiesAre(w, n, msg, w.ids);
  }

  lemma ReqShape(w: World, s: Net, m: Rreq, src: nat)
    requires ReqOk(w, s, m, src)
    ensures m.Ok()
  {
  }

  lemma AllForwardedOk(w: World, s: Net, m: Rreq, src: nat, n: nat)
    requires w.Ok() && n in w.nodes && ReqOk(w, s, m, src) && w.hears(n, src) && src in w.nodes
    ensures m.Ok()
    ensures var (op, r) := ProcessRreq(w.nodes[n], m, false);
            forall p :: p in Forwarded(w, w.nodes[n], m, op, r) ==> PacketOk(w, s, p)
  {
    ReqShape(w, s, m, src);
    hide ReqOk, RepOk, Links, Distinct;
    var (op, r) := ProcessRreq(w.nodes[n], m, false);
    if op == ReqForward {
      ForwardedOk(w, s, m, src, n);
      SentOk(w, s, n, Req(r), 0);
    } else if op != ReqNoOp && w.nodes[n].hasIp(src) {
      ReplyOk(w, s, m, src, n);
      var rep := InitRrep(w.nodes[n], r, op == ReqProxy);
      SentOk(w, s, n, Rep(rep), rep.hops[rep.hopIndex]);
    }
  }

  lemma RequestKeeps(w: World, s: Net, p: Packet)
    requires Inv(w, s) && p in s.flight && p.msg.Req?
    ensures Inv(w, Apply(w, s, Deliver(p)))
  {
    hide ReqOk, RepOk, RouteOk, Links, Distinct, Forwarded;
    assert PacketOk(w, s, p);
    ReqShape(w, s, p.msg.req, p.src);
    AllForwardedOk(w, s, p.msg.req, p.src, p.dst);
    Unchanged(w, s, Apply(w, s, Deliver(p)));
  }

  /** With the same history, only the flight matters. */
  lemma Unchanged(w: World, s: Net, t: Net)
    requires Inv(w, s) && t.asked == s.asked
    requires forall a :: a in w.nodes ==> a in t.caches && t.caches[a].Ok()
    requires forall p :: p in t.flight ==> p in s.flight || PacketOk(w, s, p)
    requires forall m :: m in t.routes ==> m in s.routes || RouteOk(w, s, m)
    ensures Inv(w, t)
  {
    forall p | p in t.flight
      ensures PacketOk(w, t, p)
    {
      PacketStays(w, s, t, p);
    }
    forall m | m in t.routes
      ensures RouteOk(w, t, m)
    {
      RouteStays(w, s, t, m);
    }
  }

  // ---- replies keep the invariant ----

  /** A hop that the reply is meant for adds its cost for the hop behind it. */
  lemma WalkedFurther(w: World, s: Net, m: Rrep, src: nat, n: nat)
    requires w.Ok() && n in w.nodes && RepOk(w, s, m, src) && w.hears(n, src) && m.hops[m.hopIndex] == n
    ensures var r := m.(forwardCost := Add16(m.forwardCost, w.nodes[n].cost(m.hops[m.hopIndex + 1])));
            Walked(w, r, m.hopIndex)
  {
    hide Distinct, Answered, ReverseCost, Links;
    var i := m.hopIndex;
    assert Walked(w, m, i + 1);
    TailCost(w, m.hops, i, m.hopCount);
  }

  /** One hop more in front. */
  lemma TailCost(w: World, hops: seq<nat>, i: nat, count: nat)
    requires w.Ok() && i + 1 < count <= |hops| <= MAXIMUM_HOPS && forall k :: i <= k < count ==> hops[k] in w.nodes
    ensures ForwardCost(w, hops[i..count]) == w.nodes[hops[i]].cost(hops[i + 1]) + ForwardCost(w, hops[i + 1..count])
    ensures ForwardCost(w, hops[i..count]) < 65536
  {
    var tail := hops[i..count];
    assert tail[1..] == hops[i + 1..count];
    CostsFit(w, tail);
  }

  lemma ReplyKeeps(w: World, s: Net, p: Packet)
    requires Inv(w, s) && p in s.flight && p.msg.Rep?
    ensures Inv(w, Apply(w, s, Deliver(p)))
  {
    hide RepOk, RouteOk, Links, Distinct;
    assert PacketOk(w, s, p);
    RepShape(w, s, p.msg.rep, p.src);
    var t, m, n := Apply(w, s, Deliver(p)), p.msg.rep, p.dst;
    var (op, r) := ProcessRrep(w.nodes[n], m);
    if op == RepForward {
      PassedOnOk(w, s, m, p.src, n);
      SentOk(w, s, n, Rep(r), r.hops[r.hopIndex]);
    } else if op == RepDest {
      AcceptedOk(w, s, m, p.src, n);
    }
    Unchanged(w, s, t);
  }

  lemma RepShape(w: World, s: Net, m: Rrep, src: nat)
    requires RepOk(w, s, m, src)
    ensures m.Ok()
  {
  }

  lemma SameAnswer(w: World, s: Net, m: Rrep, r: Rrep)
    requires m.Ok() && Answered(w, s, m) && r == m.(forwardCost := r.forwardCost, hopIndex := r.hopIndex)
    requires r.Ok()
    ensures Answered(w, s, r)
  {
    var q :| AnsweredBy(w, s, m, q);
    assert AnsweredBy(w, s, r, q);
  }

  lemma PassedOnOk(w: World, s: Net, m: Rrep, src: nat, n: nat)
    requires w.Ok() && n in w.nodes && RepOk(w, s, m, src) && w.hears(n, src)
    requires ProcessRrep(w.nodes[n], m).0 == RepForward
    ensures RepOk(w, s, ProcessRrep(w.nodes[n], m).1, n)
  {
    hide Links, Distinct, ForwardCost, ReverseCost;
    WalkedFurther(w, s, m, src, n);
    var r := ProcessRrep(w.nodes[n], m).1;
    SameAnswer(w, s, m, r);
    assert r.Path() == m.Path();
  }

  lemma AcceptedOk(w: World, s: Net, m: Rrep, src: nat, n: nat)
    requires w.Ok() && n in w.nodes && RepOk(w, s, m, src) && w.hears(n, src)
    requires ProcessRrep(w.nodes[n], m).0 == RepDest
    ensures RouteOk(w, s, ProcessRrep(w.nodes[n], m).1)
  {
    hide Links, Distinct, ForwardCost, ReverseCost;
    WalkedFurther(w, s, m, src, n);
    var r := ProcessRrep(w.nodes[n], m).1;
    SameAnswer(w, s, m, r);
    OriginAtZero(m, n);
    assert r.Path() == m.Path() && r.hops[0..r.hopCount] == r.Path();
  }

  /** The origin occurs once on the path, so a reply that names it as current hop is back at the start. */
  lemma OriginAtZero(m: Rrep, n: nat)
    requires m.Ok() && Distinct(m.Path()) && m.hops[0] == n == m.hops[m.hopIndex]
    ensures m.hopIndex == 0
  {
    assert m.Path()[0] == n && m.Path()[m.hopIndex] == n;
  }

  lemma StepKeeps(w: World, s: Net, e: Event)
    requires Inv(w, s) && Enabled(w, s, e)
    ensures e.Deliver? ==> Deliverable(w, s, e.p)
    ensures Inv(w, Apply(w, s, e))
  {
    hide ReqOk, RepOk, RouteOk, Arrive;
    match e
    case Ask(n, q, tag) => AskKeeps(w, s, n, q, tag);
    case Deliver(p) =>
      Receivable(w, s, p);
      if p.msg.Req? {
        RequestKeeps(w, s, p);
      } else {
        ReplyKeeps(w, s, p);
      }
    case Lose(p) => Unchanged(w, s, Apply(w, s, e));
  }

  lemma Receivable(w: World, s: Net, p: Packet)
    requires Inv(w, s) && p in s.flight
    ensures Deliverable(w, s, p)
  {
    assert PacketOk(w, s, p);
  }

  // ---- runs ----

  /** A run lists the state before each event and the last state; events never get stuck on a malformed message. */
  ghost predicate Run(w: World, states: seq<Net>, events: seq<Event>) {
    && |states| == |events| + 1
    && forall i :: 0 <= i < |events| ==> StepAt(w, states, events, i)
  }

  ghost predicate StepAt(w: World, states: seq<Net>, events: seq<Event>, i: nat)
    requires i < |events| < |states|
  {
    var s, e := states[i], events[i];
    Enabled(w, s, e) && (e.Deliver? ==> Deliverable(w, s, e.p)) && states[i + 1] == Apply(w, s, e)
  }

  ghost predicate Initial(w: World, s: Net) {
    && (forall a :: a in w.nodes ==> a in s.caches && s.caches[a].Ok())
    && s.flight == multiset{} && s.asked == {} && s.routes == {}
  }

  lemma {:induction false} RunKeeps(w: World, states: seq<Net>, events: seq<Event>, k: nat)
    requires Run(w, states, events) && Inv(w, states[0]) && k <= |events|
    ensures Inv(w, states[k])
  {
    hide Inv, Apply, Deliverable;
    if k > 0 {
      RunKeeps(w, states, events, k - 1);
      assert StepAt(w, states, events, k - 1);
      StepKeeps(w, states[k - 1], events[k - 1]);
    }
  }

  /** A path a discovery can find: at most eight distinct nodes, links that work both ways, routers that cannot answer
      themselves between the ends, an answer at the far end that knows the way back and is no neighbour of the
      origin. */
  ghost predicate Usable(w: World, path: seq<nat>, q: Query, key: Key) {
    && 2 <= |path| <= MAXIMUM_HOPS && Distinct(path) && key.source == path[0]
    && (forall i :: 0 <= i < |path| ==> path[i] in w.nodes)
    && (forall i :: 0 <= i < |path| - 1 ==> Connected(w, path, i))
    && (forall i :: 0 < i < |path| - 1 ==> Relay(w, path[i], q))
    && var last := w.nodes[path[|path| - 1]];
       && last.Answers(q) && last.hasIp(path[|path| - 2])
       && !w.nodes[path[0]].isNeighbor(ReplyQuery(last, q, last.proxies(q)).shortAddr)
  }

  predicate Connected(w: World, path: seq<nat>, i: nat)
    requires i + 1 < |path|
  {
    w.hears(path[i], path[i + 1]) && w.hears(path[i + 1], path[i])
  }

  /** What an origin has accepted, it could use. */
  lemma RouteUsable(w: World, s: Net, m: Rrep, q: Query)
    requires RouteOk(w, s, m) && AnsweredBy(w, s, m, q)
    ensures Usable(w, m.Path(), q, Key(m.Path()[0], m.tag))
  {
    var path := m.Path();
    forall i | 0 <= i < |path| - 1
      ensures Connected(w, path, i)
    {
      var j := i + 1;
      assert 0 < j < |path| && w.hears(path[j], path[j - 1]);
    }
    hide Distinct;
    forall i | 0 < i < |path| - 1
      ensures Relay(w, path[i], q)
    {
      assert path[i] == m.hops[i];
    }
  }

  /** Whatever is delivered, delayed, reordered or lost, every route an origin ever learns is a usable path, found for a
      query it asked: a simple path of two to eight nodes over links that work both ways, through routers that cannot
      answer the query to a node that can; its forward cost is the sum of what each hop charges for the next, its
      reverse cost the sum in the other direction. */
  lemma LearnedRoutes(w: World, states: seq<Net>, events: seq<Event>, k: nat, m: Rrep)
    requires w.Ok() && Run(w, states, events) && Initial(w, states[0]) && k <= |events| && m in states[k].routes
    ensures m.Ok() && 2 <= |m.Path()| <= MAXIMUM_HOPS && Distinct(m.Path())
    ensures forall i :: 0 <= i < |m.Path()| ==> m.Path()[i] in w.nodes
    ensures m.forwardCost == ForwardCost(w, m.Path()) && m.reverseCost == ReverseCost(w, m.Path())
    ensures exists q :: AnsweredBy(w, states[k], m, q)
    ensures forall q :: AnsweredBy(w, states[k], m, q) ==> Usable(w, m.Path(), q, Key(m.Path()[0], m.tag))
  {
    RunKeeps(w, states, events, k);
    assert RouteOk(w, states[k], m);
    forall q | AnsweredBy(w, states[k], m, q)
      ensures Usable(w, m.Path(), q, Key(m.Path()[0], m.tag))
    {
      RouteUsable(w, states[k], m, q);
    }
  }

  /** The query asks for this node: by its address, its short address, or as a gateway. */
  predicate AsksFor(q: Query, self: Query) {
    (q.ip != 0 && self.ip == q.ip) || (q.shortAddr != 0 && self.shortAddr == q.shortAddr)
    || (q.flags % 2 == 1 && self.flags % 2 == 1)
  }

  /** A route ends at the first node on it that is asked for or has a proxy. That node answers with its own addresses
      and flags; for a proxy with the address asked for, flags 0x40 and short address 65534. */
  ghost predicate RightAnswer(w: World, m: Rrep, q: Query) {
    && m.Ok() && (forall i :: 0 < i < m.hopCount ==> m.hops[i] in w.nodes)
    && (forall i :: 0 < i < m.hopCount - 1 ==> !AsksFor(q, w.nodes[m.hops[i]].self) && !w.nodes[m.hops[i]].proxies(q))
    && var last := w.nodes[m.hops[m.hopCount - 1]];
       if last.proxies(q) then m.query == Query(q.ip, 65534, 0x40)
       else AsksFor(q, last.self) && m.query == last.self
  }

  /** Every route learned ends with the right answer to a query that was asked. */
  lemma RoutesAnswer(w: World, states: seq<Net>, events: seq<Event>, k: nat, m: Rrep)
    requires w.Ok() && Run(w, states, events) && Initial(w, states[0]) && k <= |events| && m in states[k].routes
    ensures |m.hops| > 0 && exists q :: (m.hops[0], m.tag, q) in states[k].asked && RightAnswer(w, m, q)
  {
    hide Usable, AnsweredBy, Distinct, ForwardCost, ReverseCost, StepAt, RightAnswer;
    LearnedRoutes(w, states, events, k, m);
    var q :| AnsweredBy(w, states[k], m, q);
    AnswerOnFields(w, states[k], m, q);
  }

  lemma AnswerOnFields(w: World, s: Net, m: Rrep, q: Query)
    requires m.Ok() && AnsweredBy(w, s, m, q)
    ensures (m.hops[0], m.tag, q) in s.asked && RightAnswer(w, m, q)
  {
    forall i | 0 < i < m.hopCount
      ensures m.hops[i] in w.nodes
      ensures i < m.hopCount - 1 ==> !AsksFor(q, w.nodes[m.hops[i]].self) && !w.nodes[m.hops[i]].proxies(q)
    {
      assert i < m.hopCount - 1 ==> Relay(w, m.hops[i], q);
    }
  }

  /** With distinct short addresses and no proxies, a route learned for a short address ends at the one node that has
      it. */
  lemma ShortAddressFound(w: World, states: seq<Net>, events: seq<Event>, k: nat, m: Rrep, short: nat, n: nat)
    requires w.Ok() && Run(w, states, events) && Initial(w, states[0]) && k <= |events| && m in states[k].routes
    requires short != 0 && |m.hops| > 0
    requires forall q :: (m.hops[0], m.tag, q) in states[k].asked ==> q == Query(0, short, 0)
    requires forall a :: a in w.nodes ==> !w.nodes[a].proxies(Query(0, short, 0))
    requires forall a, b :: a in w.nodes && b in w.nodes && a != b ==>
        w.nodes[a].self.shortAddr != w.nodes[b].self.shortAddr
    requires n in w.nodes && w.nodes[n].self.shortAddr == short
    ensures m.Ok() && m.hops[m.hopCount - 1] == n && m.query == w.nodes[n].self
  {
    RoutesAnswer(w, states, events, k, m);
    hide Run, Initial;
  }

  /** A reply that reaches the hop it is meant for is never dropped on the way back; the origin accepts it unless the
      answer is already its neighbour. */
  lemma ReplyGetsThrough(w: World, s: Net, p: Packet)
    requires Inv(w, s) && p in s.flight && p.msg.Rep?
    ensures p.msg.rep.Ok()
    ensures var m, op := p.msg.rep, ProcessRrep(w.nodes[p.dst], p.msg.rep).0;
            if m.hops[m.hopIndex] != p.dst then op == RepNoOp
            else if m.hopIndex > 0 then op == RepForward
            else op == if w.nodes[p.dst].isNeighbor(m.query.shortAddr) then RepNoOp else RepDest
  {
    assert PacketOk(w, s, p);
    var m := p.msg.rep;
    assert m.Path()[0] == m.hops[0] && m.Path()[m.hopIndex] == m.hops[m.hopIndex];
  }

  // ---- termination ----

  /** What a reply can still cause: at most n copies one hop further back. */
  function RepWeight(n: nat, index: nat): (r: nat)
    ensures r >= 1
  {
    if index == 0 then 1 else 1 + n * RepWeight(n, index - 1)
  }

  /** What a request can still cause: at most n copies with one more hop, and one reply. */
  function ReqWeight(n: nat, hops: nat): (r: nat)
    ensures r >= 1
    decreases MAXIMUM_HOPS - hops
  {
    if hops == 0 || hops >= MAXIMUM_HOPS then 1
    else
      1 + n * ReqWeight(n, hops + 1) + RepWeight(n, hops - 1)
  }

  lemma RepWeightStep(n: nat, index: nat)
    ensures index > 0 ==> RepWeight(n, index) > n * RepWeight(n, index - 1)
    ensures index > 0 && n > 0 ==> RepWeight(n, index) > RepWeight(n, index - 1)
  {
    if index > 0 && n > 0 {
      AtMost(1, n, RepWeight(n, index - 1));
    }
  }

  lemma ReqWeightStep(n: nat, hops: nat)
    ensures 0 < hops < MAXIMUM_HOPS ==> ReqWeight(n, hops) > n * ReqWeight(n, hops + 1)
    ensures 0 < hops < MAXIMUM_HOPS ==> ReqWeight(n, hops) > RepWeight(n, hops - 1)
  {
    if 0 < hops < MAXIMUM_HOPS {
      AtMost(0, n, ReqWeight(n, hops + 1));
    }
  }

  function WeightOf(n: nat, p: Packet): nat {
    match p.msg
    case Req(m) => ReqWeight(n, m.hopCount)
    case Rep(m) => RepWeight(n, m.hopIndex)
  }

  ghost function Weight(n: nat, f: multiset<Packet>): nat
    decreases |f|
  {
    if f == multiset{} then 0
    else
      var p :| p in f;
      WeightOf(n, p) + Weight(n, f - multiset{p})
  }

  lemma WeightNone(n: nat)
    ensures Weight(n, multiset{}) == 0
  {
  }

  lemma {:induction false} WeightWithout(n: nat, f: multiset<Packet>, p: Packet)
    requires p in f
    ensures Weight(n, f) == WeightOf(n, p) + Weight(n, f - multiset{p})
    decreases |f|
  {
    var q :| q in f && Weight(n, f) == WeightOf(n, q) + Weight(n, f - multiset{q});
    if q != p {
      WeightWithout(n, f - multiset{q}, p);
      WeightWithout(n, f - multiset{p}, q);
      TakeBoth(f, p, q);
    }
  }

  lemma TakeBoth(f: multiset<Packet>, p: Packet, q: Packet)
    ensures f - multiset{q} - multiset{p} == f - multiset{p} - multiset{q}
  {
  }

  lemma {:induction false} WeightSum(n: nat, f: multiset<Packet>, g: multiset<Packet>)
    ensures Weight(n, f + g) == Weight(n, f) + Weight(n, g)
    decreases |g|
  {
    if g == multiset{} {
      assert f + g == f;
    } else {
      var p :| p in g;
      WeightWithout(n, g, p);
      WeightWithout(n, f + g, p);
      assert f + g - multiset{p} == f + (g - multiset{p});
      WeightSum(n, f, g - multiset{p});
    }
  }

  lemma {:induction false} WeightEqual(n: nat, f: multiset<Packet>, each: nat)
    requires forall p :: p in f ==> WeightOf(n, p) == each
    ensures Weight(n, f) == |f| * each
    decreases |f|
  {
    hide WeightOf, RepWeight, ReqWeight;
    if f != multiset{} {
      var p :| p in f;
      WeightWithout(n, f, p);
      hide Weight;
      var rest := f - multiset{p};
      WeightEqual(n, rest, each);
      OneMore(|rest|, each);
    }
  }

  lemma OneMore(k: nat, each: nat)
    ensures (k + 1) * each == each + k * each
  {
  }

  lemma AtMost(k: nat, n: nat, each: nat)
    requires k <= n
    ensures k * each <= n * each
  {
  }

  lemma BroadcastWeight(w: World, src: nat, msg: Message, dst: nat)
    ensures var n := |w.ids|;
            && Weight(n, Broadcast(w, src, msg)) <= n * WeightOf(n, Packet(src, dst, msg))
            && Weight(n, Unicast(w, src, dst, msg)) <= WeightOf(n, Packet(src, dst, msg))
  {
    hide RepWeight, ReqWeight, Weight, Copies;
    var n, each := |w.ids|, WeightOf(|w.ids|, Packet(src, dst, msg));
    CopiesAre(w, src, msg, w.ids);
    var all, one := Broadcast(w, src, msg), Unicast(w, src, dst, msg);
    WeightEqual(n, all, each);
    WeightEqual(n, one, each);
    AtMost(|all|, n, each);
    AtMost(|one|, 1, each);
  }

  /** Delivering a request: what it sends weighs less than it did. */
  lemma RequestShrinks(w: World, s: Net, m: Rreq, n: Node)
    requires m.Ok()
    ensures var (op, r) := ProcessRreq(n, m, false);
            Weight(|w.ids|, Forwarded(w, n, m, op, r)) < ReqWeight(|w.ids|, m.hopCount)
  {
    hide Broadcast, Unicast, Weight, RepWeight;
    WeightNone(|w.ids|);
    var (op, r) := ProcessRreq(n, m, false);
    ReqWeightStep(|w.ids|, m.hopCount);
    hide ReqWeight;
    if op == ReqForward {
      BroadcastWeight(w, n.addr, Req(r), 0);
    } else if op != ReqNoOp {
      var rep := InitRrep(n, r, op == ReqProxy);
      BroadcastWeight(w, n.addr, Rep(rep), rep.hops[rep.hopIndex]);
    }
  }

  lemma ReplyShrinks(w: World, m: Rrep, n: Node)
    requires m.Ok() && w.ids != []
    ensures var (op, r) := ProcessRrep(n, m);
            Weight(|w.ids|, PassedOn(w, n, op, r)) < RepWeight(|w.ids|, m.hopIndex)
  {
    hide Broadcast, Unicast, Weight;
    WeightNone(|w.ids|);
    var (op, r) := ProcessRrep(n, m);
    RepWeightStep(|w.ids|, m.hopIndex);
    hide RepWeight;
    if op == RepForward {
      BroadcastWeight(w, n.addr, Rep(r), r.hops[r.hopIndex]);
    }
  }

  /** Every delivery and every loss makes the total weight smaller. */
  lemma StepShrinks(w: World, s: Net, e: Event)
    requires Inv(w, s) && Enabled(w, s, e) && !e.Ask? && (e.Deliver? ==> Deliverable(w, s, e.p))
    ensures Weight(|w.ids|, Apply(w, s, e).flight) < Weight(|w.ids|, s.flight)
  {
    hide Inv, PacketOk, Weight, ReqWeight, RepWeight, Forwarded, PassedOn;
    var n, rest := |w.ids|, s.flight - multiset{e.p};
    WeightWithout(n, s.flight, e.p);
    WeightNone(n);
    if e.Deliver? {
      assert w.ids != [] by {
        AddressListed(w, s, e.p.dst);
      }
      var node := w.nodes[e.p.dst];
      match e.p.msg {
        case Req(m) =>
          var (op, r) := ProcessRreq(node, m, false);
          RequestShrinks(w, s, m, node);
          WeightSum(n, rest, Forwarded(w, node, m, op, r));
          WeightSum(n, rest, multiset{});
        case Rep(m) =>
          var (op, r) := ProcessRrep(node, m);
          ReplyShrinks(w, m, node);
          WeightSum(n, rest, PassedOn(w, node, op, r));
      }
    }
  }

  lemma AddressListed(w: World, s: Net, a: nat)
    requires Inv(w, s) && a in w.nodes
    ensures a in w.ids
  {
  }

  /** With no further questions, a run has at most as many steps as the weight of what is in flight. */
  lemma {:induction false} RunsEnd(w: World, states: seq<Net>, events: seq<Event>)
    requires Run(w, states, events) && Inv(w, states[0])
    requires forall i :: 0 <= i < |events| ==> !events[i].Ask?
    ensures |events| + Weight(|w.ids|, states[|events|].flight) <= Weight(|w.ids|, states[0].flight)
    decreases |events|
  {
    if events != [] {
      var k := |events| - 1;
      var ss, es := states[..k + 1], events[..k];
      forall i | 0 <= i < k
        ensures StepAt(w, ss, es, i)
      {
        assert StepAt(w, states, events, i);
      }
      RunsEnd(w, ss, es);
      RunKeeps(w, states, events, k);
      assert StepAt(w, states, events, k);
      StepShrinks(w, states[k], events[k]);
    }
  }

  /** One route request on n nodes causes finitely many message steps, with a bound that depends on n alone. */
  lemma OneRequestEnds(w: World, s: Net, n: nat, q: Query, tag: nat, states: seq<Net>, events: seq<Event>)
    requires Inv(w, s) && s.flight == multiset{} && n in w.nodes
    requires Run(w, states, events) && states[0] == Apply(w, s, Ask(n, q, tag))
    requires forall i :: 0 <= i < |events| ==> !events[i].Ask?
    ensures |events| <= |w.ids| * ReqWeight(|w.ids|, 1)
  {
    AskKeeps(w, s, n, q, tag);
    var m := Req(InitRreq(w.nodes[n], q, tag));
    BroadcastWeight(w, n, m, 0);
    assert multiset{} + Broadcast(w, n, m) == Broadcast(w, n, m);
    RunsEnd(w, states, events);
  }

  // ---- at most one rebroadcast per node ----

  function KeyOf(m: Rreq): Key
    requires m.Ok()
  {
    Key(m.hops[0], m.tag)
  }

  /** All requests in flight belong to one discovery. */
  ghost predicate OneDiscovery(s: Net, key: Key) {
    forall p :: p in s.flight && p.msg.Req? ==> p.msg.req.Ok() && KeyOf(p.msg.req) == key
  }

  /** Node a takes part in the flood in this step: it forwards or answers a request. */
  ghost predicate Acts(w: World, s: Net, e: Event, a: nat) {
    && e.Deliver? && e.p.msg.Req? && e.p.dst == a && Deliverable(w, s, e.p)
    && ProcessRreq(w.nodes[a], e.p.msg.req, KeyOf(e.p.msg.req) in s.caches[a].entries).0 != ReqNoOp
  }

  /** What a node sends for a request belongs to the same discovery. */
  lemma SentForRequest(w: World, n: Node, m: Rreq)
    requires m.Ok()
    ensures var (op, r) := ProcessRreq(n, m, false);
            forall p :: p in Forwarded(w, n, m, op, r) && p.msg.Req? ==> p.msg.req.Ok() && KeyOf(p.msg.req) == KeyOf(m)
  {
    var (op, r) := ProcessRreq(n, m, false);
    CopiesAre(w, n.addr, Req(r), w.ids);
  }

  /** For a reply only replies are sent. */
  lemma SentForReply(w: World, n: Node, m: Rrep)
    requires m.Ok()
    ensures var (op, r) := ProcessRrep(n, m);
            forall p :: p in PassedOn(w, n, op, r) ==> !p.msg.Req?
  {
    var (op, r) := ProcessRrep(n, m);
    CopiesAre(w, n.addr, Rep(r), w.ids);
  }

  /** Whatever a delivery sends out belongs to the same discovery. */
  lemma SameDiscovery(w: World, s: Net, p: Packet, key: Key)
    requires OneDiscovery(s, key) && p in s.flight && Deliverable(w, s, p)
    ensures OneDiscovery(Arrive(w, s, p), key)
  {
    hide Forwarded, PassedOn, ProcessRreq, ProcessRrep, KeyOf;
    match p.msg {
      case Req(m) => SentForRequest(w, w.nodes[p.dst], m);
      case Rep(m) => SentForReply(w, w.nodes[p.dst], m);
    }
  }

  /** A node that acts had not seen the key, and knows it from then on. */
  lemma SeenOnce(w: World, s: Net, p: Packet, key: Key, a: nat)
    requires OneDiscovery(s, key) && p in s.flight && Deliverable(w, s, p) && a in s.caches && s.caches[a].Ok()
    ensures a in Arrive(w, s, p).caches
    ensures key in s.caches[a].entries ==> key in Arrive(w, s, p).caches[a].entries && !Acts(w, s, Deliver(p), a)
    ensures Acts(w, s, Deliver(p), a) ==> key in Arrive(w, s, p).caches[a].entries
  {
    hide Forwarded, PassedOn;
  }

  lemma DiscoveryStep(w: World, s: Net, e: Event, key: Key, a: nat)
    requires Inv(w, s) && OneDiscovery(s, key) && Enabled(w, s, e) && !e.Ask? && a in w.nodes
    requires e.Deliver? ==> Deliverable(w, s, e.p)
    ensures OneDiscovery(Apply(w, s, e), key)
    ensures a in s.caches && a in Apply(w, s, e).caches
    ensures key in s.caches[a].entries ==> key in Apply(w, s, e).caches[a].entries && !Acts(w, s, e, a)
    ensures Acts(w, s, e, a) ==> key in Apply(w, s, e).caches[a].entries
  {
    hide PacketOk, Arrive;
    if e.Deliver? {
      SameDiscovery(w, s, e.p, key);
      SeenOnce(w, s, e.p, key, a);
    }
  }

  ghost function ActCount(w: World, states: seq<Net>, events: seq<Event>, a: nat, k: nat): nat
    requires k <= |events| < |states|
  {
    if k == 0 then 0
    else ActCount(w, states, events, a, k - 1) + (if Acts(w, states[k - 1], events[k - 1], a) then 1 else 0)
  }

  /** During one discovery every node forwards or answers at most once, however many copies reach it. */
  lemma {:induction false} ActsOnce(w: World, states: seq<Net>, events: seq<Event>, key: Key, a: nat, k: nat)
    requires Run(w, states, events) && Inv(w, states[0]) && OneDiscovery(states[0], key) && a in w.nodes
    requires k <= |events| && forall i :: 0 <= i < |events| ==> !events[i].Ask?
    ensures OneDiscovery(states[k], key) && a in states[k].caches
    ensures ActCount(w, states, events, a, k) <= if key in states[k].caches[a].entries then 1 else 0
  {
    hide OneDiscovery, Arrive, Acts, Deliverable;
    if k > 0 {
      ActsOnce(w, states, events, key, a, k - 1);
      RunKeeps(w, states, events, k - 1);
      assert StepAt(w, states, events, k - 1);
      DiscoveryStep(w, states[k - 1], events[k - 1], key, a);
    }
  }

  lemma AskStarts(w: World, s: Net, n: nat, q: Query, tag: nat)
    requires w.Ok() && s.flight == multiset{} && n in w.nodes
    ensures OneDiscovery(Apply(w, s, Ask(n, q, tag)), Key(n, tag))
  {
    CopiesAre(w, n, Req(InitRreq(w.nodes[n], q, tag)), w.ids);
  }

  /** From the moment a node asks, no node takes part in that flood more than once. */
  lemma FloodsOnce(w: World, s: Net, n: nat, q: Query, tag: nat, states: seq<Net>, events: seq<Event>, a: nat)
    requires Inv(w, s) && s.flight == multiset{} && n in w.nodes && a in w.nodes
    requires Run(w, states, events) && states[0] == Apply(w, s, Ask(n, q, tag))
    requires forall i :: 0 <= i < |events| ==> !events[i].Ask?
    ensures ActCount(w, states, events, a, |events|) <= 1
  {
    AskKeeps(w, s, n, q, tag);
    AskStarts(w, s, n, q, tag);
    hide Inv, Run, OneDiscovery, Apply, ActCount;
    ActsOnce(w, states, events, Key(n, tag), a, |events|);
  }
}
