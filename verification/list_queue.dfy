/** Every queue of the system is a list in the heap: inserted at the head, removed at the tail. */
module ListQueue {
  import opened Bytes
  import opened HandleHeap
  import opened HeapLayout
  import opened ListNodes
  import opened HandleList

  /** What can happen to a queue; a collector pass may come in between. */
  datatype Op = Enqueue(data: seq<byte>) | Dequeue | Compact

  /** The data of the nodes in the order they arrived, that is from the tail. */
  function Bodies(view: View, nodes: seq<int>): (r: seq<seq<byte>>)
    ensures |r| == |nodes|
  {
    seq(|nodes|, i requires 0 <= i < |nodes| => BodyOf(view, nodes[|nodes| - 1 - i]))
  }

  ghost function Waiting(list: List, hp: Heap): seq<seq<byte>>
    reads list, hp
  {
    Bodies(Nodes(hp.Store()), list.nodes)
  }

  // ---- what the list operations mean for the queue ----

  lemma HeadArrives(was: View, now: View, nodes: seq<int>, n: int)
    requires n in now && forall i :: 0 <= i < |nodes| ==> BodyOf(now, nodes[i]) == BodyOf(was, nodes[i])
    ensures Bodies(now, [n] + nodes) == Bodies(was, nodes) + [now[n].body]
  {
    var all := [n] + nodes;
    var l, r := Bodies(now, all), Bodies(was, nodes) + [now[n].body];
    forall i | 0 <= i < |l|
      ensures l[i] == r[i]
    {
      var j := |all| - 1 - i;
      assert l[i] == BodyOf(now, all[j]);
      if j > 0 {
        assert all[j] == nodes[j - 1];
        assert r[i] == Bodies(was, nodes)[i] == BodyOf(was, nodes[|nodes| - 1 - i]);
      }
    }
  }

  lemma TailLeaves(was: View, now: View, nodes: seq<int>)
    requires nodes != [] && forall i :: 0 <= i < |nodes| - 1 ==> BodyOf(now, nodes[i]) == BodyOf(was, nodes[i])
    ensures Bodies(was, nodes)[0] == BodyOf(was, nodes[|nodes| - 1])
    ensures Bodies(now, nodes[..|nodes| - 1]) == Bodies(was, nodes)[1..]
  {
  }

  /** Inserting and removing keep what the nodes carry. */
  lemma BodiesKept(was: Store, now: Store, touched: set<int>, nodes: seq<int>)
    requires Kept(was, now, touched)
    ensures forall i :: 0 <= i < |nodes| ==> BodyOf(Nodes(now), nodes[i]) == BodyOf(Nodes(was), nodes[i])
    ensures Bodies(Nodes(now), nodes) == Bodies(Nodes(was), nodes)
  {
  }

  /** A new object is no node of the list, and leaves the list as it is. */
  lemma NewObject(was: Store, now: Store, head: int, tail: int, nodes: seq<int>, n: int)
    requires IsList(Nodes(was), head, tail, nodes) && n - 1 !in was && n - 1 in now && now == was[n - 1 := now[n - 1]]
    ensures n !in nodes && IsList(Nodes(now), head, tail, nodes)
    ensures Bodies(Nodes(now), nodes) == Bodies(Nodes(was), nodes)
  {
    OneObject(was, now, head, tail, nodes, n);
  }

  /** So does the release of an object that is no node of it. */
  lemma ObjectGone(was: Store, now: Store, head: int, tail: int, nodes: seq<int>, n: int)
    requires IsList(Nodes(was), head, tail, nodes) && n !in nodes && now == was - {n - 1}
    ensures IsList(Nodes(now), head, tail, nodes)
    ensures Bodies(Nodes(now), nodes) == Bodies(Nodes(was), nodes)
  {
    OneObject(was, now, head, tail, nodes, n);
  }

  lemma OneObject(was: Store, now: Store, head: int, tail: int, nodes: seq<int>, n: int)
    requires IsList(Nodes(was), head, tail, nodes)
    requires n !in nodes || n - 1 !in was
    requires forall h :: h in was && h != n - 1 ==> h in now && now[h] == was[h]
    ensures n !in nodes && IsList(Nodes(now), head, tail, nodes)
    ensures Bodies(Nodes(now), nodes) == Bodies(Nodes(was), nodes)
  {
    RealNodes(Nodes(was), head, tail, nodes);
    forall i | 0 <= i < |nodes|
      ensures nodes[i] - 1 in was && nodes[i] != n && nodes[i] - 1 in now && now[nodes[i] - 1] == was[nodes[i] - 1]
      ensures BodyOf(Nodes(now), nodes[i]) == BodyOf(Nodes(was), nodes[i])
    {
      assert IsNode(was, nodes[i]) && nodes[i] in nodes;
    }
    SameObjects(was, now, head, tail, nodes);
  }

  // ---- operations ----

  /** Put a new object at the head; refused when the heap has no room for it. */
  method Put(list: List, hp: Heap, data: seq<byte>) returns (ok: bool)
    requires list.Valid(hp) && |data| + LINKS < 65536
    modifies list, hp, hp.heap, hp.handles
    ensures list.Valid(hp)
    ensures ok <==> !(old(hp.freeSpace) < |data| + LINKS + OVERHEAD || old(hp.AllHandlesUsed()))
    ensures Waiting(list, hp) == if ok then old(Waiting(list, hp)) + [data] else old(Waiting(list, hp))
  {
    hide Heap.Valid, Heap.Store, Nodes, Kept, IsList, Bodies;
    ghost var store, nodes := hp.Store(), list.nodes;
    var n := CreateNode(hp, Some(data), |data|);
    if n == NO_NODE {
      return false;
    }
    ghost var mid := hp.Store();
    NewObject(store, mid, list.head, list.tail, nodes, n);
    list.InsertHead(hp, n);
    BodiesKept(mid, hp.Store(), Members(list.nodes), nodes);
    BodiesKept(mid, hp.Store(), Members(list.nodes), [n]);
    HeadArrives(Nodes(mid), Nodes(hp.Store()), nodes, n);
    return true;
  }

  /** Take the object at the tail, read it and release it. */
  method Get(list: List, hp: Heap) returns (data: Option<seq<byte>>)
    requires list.Valid(hp)
    modifies list, hp, hp.heap, hp.handles
    ensures list.Valid(hp)
    ensures old(Waiting(list, hp)) == [] ==> data == None && Waiting(list, hp) == []
    ensures old(Waiting(list, hp)) != [] ==>
              data == Some(old(Waiting(list, hp))[0]) && Waiting(list, hp) == old(Waiting(list, hp))[1..]
  {
    hide Heap.Valid, Heap.Store, Nodes, Kept, IsList, Bodies;
    ghost var store, nodes := hp.Store(), list.nodes;
    TailNode(store, list.head, list.tail, nodes);
    var n := list.RemoveTail(hp);
    if n < 0 {
      return None;
    }
    ghost var mid := hp.Store();
    BodiesKept(store, mid, Members(list.nodes), nodes);
    TailLeaves(Nodes(store), Nodes(mid), nodes);
    StillNode(store, mid, Members(list.nodes), n);
    var size := list.NodeSize(hp, n);
    var d := ReadBody(hp, n, 0, size);
    ReleaseNode(hp, n);
    ObjectGone(mid, hp.Store(), list.head, list.tail, list.nodes, n);
    assert d == BodyOf(Nodes(mid), n);
    return Some(d);
  }

  /** A collector pass in between moves the objects, not the queue. */
  method Tidy(list: List, hp: Heap)
    requires list.Valid(hp)
    modifies hp, hp.heap, hp.handles
    ensures list.Valid(hp) && Waiting(list, hp) == old(Waiting(list, hp))
  {
    hide Heap.Valid, Heap.Store, Nodes, IsList, Bodies;
    list.CollectGarbage(hp);
  }

  lemma TailNode(store: Store, head: int, tail: int, nodes: seq<int>)
    requires IsList(Nodes(store), head, tail, nodes)
    ensures nodes != [] ==>
              var n := nodes[|nodes| - 1]; n > 0 && n in Nodes(store) && n !in nodes[..|nodes| - 1]
  {
    if nodes != [] {
      assert Linked(Nodes(store), nodes, |nodes| - 1);
    }
  }

  lemma StillNode(was: Store, now: Store, touched: set<int>, n: int)
    requires Kept(was, now, touched) && n in Nodes(was)
    ensures n in Nodes(now) && BodyOf(Nodes(now), n) == Nodes(now)[n].body == Nodes(was)[n].body
  {
  }

  // ---- runs ----

  /** What is waiting and what has been taken after a run; `fits[i]` says whether the heap had room in step i. */
  function Served(queue: seq<seq<byte>>, ops: seq<Op>, fits: seq<bool>): (r: (seq<seq<byte>>, seq<seq<byte>>))
    requires |fits| == |ops|
  {
    if ops == [] then (queue, [])
    else
      var k := |ops| - 1;
      var (q, out) := Served(queue, ops[..k], fits[..k]);
      match ops[k]
      case Enqueue(d) => (if fits[k] then q + [d] else q, out)
      case Dequeue => if q == [] then (q, out) else (q[1..], out + [q[0]])
      case Compact => (q, out)
  }

  /** One step more. */
  lemma ServedMore(queue: seq<seq<byte>>, ops: seq<Op>, fits: seq<bool>)
    requires |fits| == |ops| && ops != []
    ensures var k := |ops| - 1;
            var (q, out) := Served(queue, ops[..k], fits[..k]);
            Served(queue, ops, fits) ==
            match ops[k]
            case Enqueue(d) => (if fits[k] then q + [d] else q, out)
            case Dequeue => if q == [] then (q, out) else (q[1..], out + [q[0]])
            case Compact => (q, out)
  {
  }

  /** The data that went in. */
  function Accepted(ops: seq<Op>, fits: seq<bool>): seq<seq<byte>>
    requires |fits| == |ops|
  {
    if ops == [] then []
    else
      var k := |ops| - 1;
      Accepted(ops[..k], fits[..k]) + (if ops[k].Enqueue? && fits[k] then [ops[k].data] else [])
  }

  /** First in, first out: what was taken, followed by what still waits, is exactly what waited before followed by what
      went in. Nothing is lost, duplicated, changed or overtaken. */
  lemma {:induction false} Fifo(queue: seq<seq<byte>>, ops: seq<Op>, fits: seq<bool>)
    requires |fits| == |ops|
    ensures var (q, out) := Served(queue, ops, fits); out + q == queue + Accepted(ops, fits)
  {
    if ops != [] {
      var k := |ops| - 1;
      Fifo(queue, ops[..k], fits[..k]);
      var (q, out) := Served(queue, ops[..k], fits[..k]);
      match ops[k] {
        case Enqueue(d) =>
          assert out + (q + [d]) == (out + q) + [d];
          assert queue + (Accepted(ops[..k], fits[..k]) + [d]) == (queue + Accepted(ops[..k], fits[..k])) + [d];
        case Dequeue =>
          if q != [] {
            assert out + [q[0]] + q[1..] == out + q;
          }
        case Compact =>
      }
    }
  }

  /** Any run of operations on a list in the heap, collector passes included, is a run of that queue. */
  method Serve(list: List, hp: Heap, ops: seq<Op>) returns (fits: seq<bool>, out: seq<seq<byte>>)
    requires list.Valid(hp)
    requires forall i :: 0 <= i < |ops| && ops[i].Enqueue? ==> |ops[i].data| + LINKS < 65536
    modifies list, hp, hp.heap, hp.handles
    ensures list.Valid(hp) && |fits| == |ops|
    ensures (Waiting(list, hp), out) == Served(old(Waiting(list, hp)), ops, fits)
    ensures out + Waiting(list, hp) == old(Waiting(list, hp)) + Accepted(ops, fits)
  {
    hide Heap.Valid, Heap.Store, Nodes, IsList, Bodies, Waiting, List.Valid, Accepted;
    ghost var queue := Waiting(list, hp);
    fits, out := [], [];
    for i := 0 to |ops|
      invariant list.Valid(hp) && |fits| == i
      invariant (Waiting(list, hp), out) == Served(queue, ops[..i], fits)
    {
      ghost var fits0 := fits;
      var ok := true;
      match ops[i] {
        case Enqueue(d) =>
          ok := Put(list, hp, d);
        case Dequeue =>
          var d := Get(list, hp);
          if d.Some? {
            out := out + [d.value];
          }
        case Compact =>
          Tidy(list, hp);
      }
      fits := fits + [ok];
      ServedMore(queue, ops[..i + 1], fits);
      assert ops[..i + 1][..i] == ops[..i] && fits[..i] == fits0;
    }
    assert ops[..|ops|] == ops;
    Fifo(queue, ops, fits);
  }
}
