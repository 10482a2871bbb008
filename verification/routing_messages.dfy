/** Route discovery messages and what one node does with them, stated on values. */
module RouteMessages {
  const MAXIMUM_HOPS: nat := 8
  const REPLAY_ENTRIES: nat := 8
  const FLAG_PROXY: nat := 0x40
  const PROXY_SHORT: nat := 65534

  /** An address of zero means "not asked for"; bit 0 of the flags asks for a gateway. */
  datatype Query = Query(ip: nat, shortAddr: nat, flags: nat)

  predicate Gateway(flags: nat) { flags % 2 == 1 }

  predicate EvaluateQuery(q1: Query, q2: Query) {
    || (q1.ip != 0 && q1.ip == q2.ip)
    || (q1.shortAddr != 0 && q1.shortAddr == q2.shortAddr)
    || (Gateway(q1.flags) && Gateway(q2.flags))
  }

  /** Hops are kept in a fixed table of eight, of which the first hopCount are used. */
  datatype Rreq = Rreq(tag: nat, query: Query, forwardCost: nat, reverseCost: nat, hopCount: nat, hops: seq<nat>)
  {
    predicate Ok() { |hops| == MAXIMUM_HOPS && 1 <= hopCount <= MAXIMUM_HOPS }
    function Path(): seq<nat> requires Ok() { hops[..hopCount] }
  }

  datatype Rrep = Rrep(tag: nat, query: Query, forwardCost: nat, reverseCost: nat, hopCount: nat, hopIndex: nat,
                       hops: seq<nat>)
  {
    /** The index points at a hop that has a successor in the table. */
    predicate Ok() { |hops| == MAXIMUM_HOPS && hopIndex + 1 < hopCount <= MAXIMUM_HOPS }
    function Path(): seq<nat> requires Ok() { hops[..hopCount] }
  }

  /** One node: its address and answer to queries, and what its neighbour table says about others. */
  datatype Node = Node(addr: nat, self: Query, routing: bool, proxies: Query -> bool, cost: nat -> nat,
                       isNeighbor: nat -> bool, hasIp: nat -> bool)
  {
    predicate Answers(q: Query) { EvaluateQuery(q, self) || proxies(q) }
  }

  function Add16(a: nat, b: nat): nat { (a + b) % 65536 }

  // ---- requests ----

  function InitRreq(n: Node, query: Query, tag: nat): Rreq {
    Rreq(tag, query, 0, 0, 1, [n.addr, 0, 0, 0, 0, 0, 0, 0])
  }

  datatype ReqOp = ReqNoOp | ReqDest | ReqProxy | ReqForward

  /** The replay cache is consulted only by nodes that could act on the request. */
  predicate ConsultsCache(n: Node, m: Rreq) { n.Answers(m.query) || n.routing }

  function ProcessRreq(n: Node, m: Rreq, seen: bool): (ReqOp, Rreq)
    requires m.Ok()
  {
    if !ConsultsCache(n, m) || seen || m.hopCount >= MAXIMUM_HOPS || n.addr in m.Path() then (ReqNoOp, m)
    else
      var last := m.hops[m.hopCount - 1];
      var r := m.(reverseCost := Add16(m.reverseCost, n.cost(last)), hopCount := m.hopCount + 1,
                  hops := m.hops[m.hopCount := n.addr]);
      (if n.proxies(m.query) then ReqProxy else if n.Answers(m.query) then ReqDest else ReqForward, r)
  }

  // ---- replies ----

  function ReplyQuery(n: Node, query: Query, proxy: bool): Query {
    if proxy then query.(flags := FLAG_PROXY, shortAddr := PROXY_SHORT) else n.self
  }

  function InitRrep(n: Node, m: Rreq, proxy: bool): Rrep
    requires m.Ok() && m.hopCount >= 2
  {
    Rrep(m.tag, ReplyQuery(n, m.query, proxy), 0, m.reverseCost, m.hopCount, m.hopCount - 2,
         m.hops[..m.hopCount] + seq(MAXIMUM_HOPS - m.hopCount, i => 0))
  }

  datatype RepOp = RepNoOp | RepDest | RepForward

  function ProcessRrep(n: Node, m: Rrep): (RepOp, Rrep)
    requires m.Ok()
  {
    var origin := m.hops[0] == n.addr;
    if !origin && !n.routing then (RepNoOp, m)
    else if m.hops[m.hopIndex] != n.addr then (RepNoOp, m)
    else
      var r := m.(forwardCost := Add16(m.forwardCost, n.cost(m.hops[m.hopIndex + 1])));
      if origin then (if m.hopCount < 2 || n.isNeighbor(m.query.shortAddr) then RepNoOp else RepDest, r)
      else if m.hopIndex == 0 then (RepNoOp, r)
      else (RepForward, r.(hopIndex := m.hopIndex - 1))
  }

  // ---- the replay cache ----

  datatype Key = Key(source: nat, tag: nat)

  /** A ring of the last eight keys; ptr is where the next one goes. */
  datatype Cache = Cache(entries: seq<Key>, ptr: nat)
  {
    predicate Ok() { |entries| == REPLAY_ENTRIES && ptr < REPLAY_ENTRIES }
    function Recent(): seq<Key> requires Ok() { entries[ptr..] + entries[..ptr] }
  }

  /** Looking a key up also enters it when it is new, over the oldest one. */
  function Remember(c: Cache, k: Key): (r: Cache)
    requires c.Ok()
    ensures r.Ok() && k in r.entries
  {
    assert c.entries[c.ptr := k][c.ptr] == k;
    if k in c.entries then c else Cache(c.entries[c.ptr := k], (c.ptr + 1) % REPLAY_ENTRIES)
  }

  /** In order of age: a new key drops the oldest and comes last. */
  lemma RememberRecent(c: Cache, k: Key)
    requires c.Ok()
    ensures Remember(c, k).Recent() == if k in c.entries then c.Recent() else c.Recent()[1..] + [k]
  {
    if k !in c.entries {
      var r := Remember(c, k);
      if c.ptr + 1 < REPLAY_ENTRIES {
        assert r.entries[r.ptr..] == c.entries[c.ptr..][1..];
        assert r.entries[..r.ptr] == c.entries[..c.ptr] + [k];
        assert c.Recent()[1..] == c.entries[c.ptr..][1..] + c.entries[..c.ptr];
      } else {
        assert r.Recent() == r.entries;
        assert r.entries == c.entries[..c.ptr] + [k];
        assert c.Recent()[1..] == c.entries[..c.ptr];
      }
    }
  }

  function RememberAll(c: Cache, ks: seq<Key>): (r: Cache)
    requires c.Ok()
    ensures r.Ok()
  {
    if ks == [] then c else Remember(RememberAll(c, ks[..|ks| - 1]), ks[|ks| - 1])
  }

  lemma RecentHolds(c: Cache, k: Key)
    requires c.Ok()
    ensures k in c.Recent() <==> k in c.entries
  {
    assert c.entries == c.entries[..c.ptr] + c.entries[c.ptr..];
  }

  /** A key is forgotten only after eight further requests: up to seven of them never push it out. */
  lemma {:induction false} ReplayWindow(c: Cache, k: Key, ks: seq<Key>)
    requires c.Ok() && |ks| < REPLAY_ENTRIES
    requires c.Recent()[REPLAY_ENTRIES - 1] == k
    ensures exists i :: REPLAY_ENTRIES - 1 - |ks| <= i < REPLAY_ENTRIES && RememberAll(c, ks).Recent()[i] == k
    ensures k in RememberAll(c, ks).entries
  {
    if ks == [] {
      assert RememberAll(c, ks).Recent()[REPLAY_ENTRIES - 1] == k;
    } else {
      var init, last := ks[..|ks| - 1], ks[|ks| - 1];
      ReplayWindow(c, k, init);
      var d := RememberAll(c, init);
      RememberRecent(d, last);
      var i :| REPLAY_ENTRIES - 1 - |init| <= i < REPLAY_ENTRIES && d.Recent()[i] == k;
      var j := if last in d.entries then i else i - 1;
      assert Remember(d, last).Recent()[j] == k;
    }
    RecentHolds(RememberAll(c, ks), k);
  }
}
