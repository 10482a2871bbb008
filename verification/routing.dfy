/** A routing node: the replay cache and the handlers for route messages. */
module Routing {
  import opened Bytes
  import opened RouteMessages

  class Router {
    const node: Node
    const cache: array<Key>
    var cachePtr: nat

    ghost predicate Valid()
      reads this
    {
      cache.Length == REPLAY_ENTRIES && cachePtr < REPLAY_ENTRIES
    }

    ghost function State(): (c: Cache)
      requires Valid()
      reads this, cache
      ensures c.Ok()
    {
      Cache(cache[..], cachePtr)
    }

    /** The table starts out zeroed. */
    constructor (node: Node)
      ensures Valid() && fresh(cache) && this.node == node
      ensures State() == Cache(seq(REPLAY_ENTRIES, i => Key(0, 0)), 0)
    {
      this.node := node;
      cache := new Key[REPLAY_ENTRIES](_ => Key(0, 0));
      cachePtr := 0;
    }

    /** True if the tag was in the cache already; otherwise it is now. */
    method AddToReplayCache(source: nat, tag: nat) returns (found: bool)
      requires Valid()
      modifies this, cache
      ensures Valid() && State() == Remember(old(State()), Key(source, tag))
      ensures found <==> Key(source, tag) in old(State()).entries
    {
      for i := 0 to REPLAY_ENTRIES
        invariant forall k :: 0 <= k < i ==> cache[k] != Key(source, tag)
      {
        if cache[i].source == source && cache[i].tag == tag {
          assert cache[..][i] == Key(source, tag);
          return true;
        }
      }
      cache[cachePtr] := Key(source, tag);
      cachePtr := cachePtr + 1;
      if cachePtr >= REPLAY_ENTRIES {
        cachePtr := 0;
      }
      return false;
    }

    /** Decide about a route request and, unless it is dropped, add this node to its path. A node answers for itself
        when the address asked for, or the short address, is its own, or when a gateway is asked for and it is one. */
    method HandleRreq(m: Rreq) returns (op: ReqOp, r: Rreq)
      requires Valid() && m.Ok()
      modifies this, cache
      ensures Valid()
      ensures State() == if ConsultsCache(node, m) then Remember(old(State()), Key(m.hops[0], m.tag)) else old(State())
      ensures (op, r) == ProcessRreq(node, m, Key(m.hops[0], m.tag) in old(State()).entries)
      ensures var mine := (m.query.ip != 0 && m.query.ip == node.self.ip)
                          || (m.query.shortAddr != 0 && m.query.shortAddr == node.self.shortAddr)
                          || (m.query.flags % 2 == 1 && node.self.flags % 2 == 1);
              var proxy, seen := node.proxies(m.query), Key(m.hops[0], m.tag) in old(State()).entries;
              && op == (if seen || m.hopCount >= 8 || node.addr in m.hops[..m.hopCount] then ReqNoOp
                        else if proxy then ReqProxy
                        else if mine then ReqDest
                        else if node.routing then ReqForward else ReqNoOp)
              && (op != ReqNoOp ==>
                    && r.hopCount == m.hopCount + 1 && r.hops == m.hops[m.hopCount := node.addr]
                    && r.reverseCost == (m.reverseCost + node.cost(m.hops[m.hopCount - 1])) % 65536
                    && r.forwardCost == m.forwardCost && r.tag == m.tag && r.query == m.query)
    {
      op, r := ReqNoOp, m;
      var proxy := node.proxies(m.query);
      var destination := EvaluateQuery(m.query, node.self) || proxy;
      if !destination && !node.routing {
        return;
      }
      var found := AddToReplayCache(m.hops[0], m.tag);
      if found {
        return;
      }
      if m.hopCount >= MAXIMUM_HOPS {
        return;
      }
      for i := 0 to m.hopCount
        invariant forall k :: 0 <= k < i ==> m.Path()[k] != node.addr
      {
        if m.hops[i] == node.addr {
          assert m.Path()[i] == node.addr;
          return;
        }
      }
      var lastHop := m.hops[m.hopCount - 1];
      r := r.(reverseCost := Add16(r.reverseCost, node.cost(lastHop)));
      r := r.(hopCount := r.hopCount + 1);
      r := r.(hops := r.hops[r.hopCount - 1 := node.addr]);
      op := if proxy then ReqProxy else if destination then ReqDest else ReqForward;
    }

    /** Decide about a route reply and pass its index on to the previous hop. */
    method HandleRrep(m: Rrep) returns (op: RepOp, r: Rrep)
      requires m.Ok()
      ensures (op, r) == ProcessRrep(node, m)
      ensures var origin := m.hops[0] == node.addr;
              && op == (if m.hops[m.hopIndex] != node.addr then RepNoOp
                        else if origin then (if node.isNeighbor(m.query.shortAddr) then RepNoOp else RepDest)
                        else if node.routing && m.hopIndex > 0 then RepForward
                        else RepNoOp)
              && (op != RepNoOp ==>
                    && r.forwardCost == (m.forwardCost + node.cost(m.hops[m.hopIndex + 1])) % 65536
                    && r.hopIndex == (if origin then m.hopIndex else m.hopIndex - 1) && r.hops == m.hops
                    && r.hopCount == m.hopCount && r.reverseCost == m.reverseCost && r.tag == m.tag
                    && r.query == m.query)
    {
      op, r := RepNoOp, m;
      var origin := m.hops[0] == node.addr;
      if !origin && !node.routing {
        return;
      }
      if m.hops[m.hopIndex] != node.addr {
        return;
      }
      var lastHop := m.hops[m.hopIndex + 1];
      r := r.(forwardCost := Add16(r.forwardCost, node.cost(lastHop)));
      if origin {
        if m.hopCount < 2 {
          return;
        }
        if node.isNeighbor(m.query.shortAddr) {
          return;
        }
        op := RepDest;
        return;
      }
      if r.hopIndex == 0 {
        return;
      }
      r := r.(hopIndex := r.hopIndex - 1);
      op := RepForward;
    }
  }

  /** A route has a loop exactly when some hop occurs twice. */
  method CheckForLoops(hops: seq<nat>, hopCount: nat) returns (ok: bool)
    requires hopCount <= |hops|
    ensures ok <==> Distinct(hops[..hopCount])
  {
    var i := 0;
    while i < hopCount - 1
      invariant 0 <= i && (hopCount > 0 ==> i <= hopCount - 1)
      invariant forall a, b :: 0 <= a < i && a < b < hopCount ==> hops[a] != hops[b]
    {
      for j := i + 1 to hopCount
        invariant forall b :: i < b < j ==> hops[i] != hops[b]
      {
        if hops[i] == hops[j] {
          assert hops[..hopCount][i] == hops[..hopCount][j];
          return false;
        }
      }
      i := i + 1;
    }
    return true;
  }
}
