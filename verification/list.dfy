/** Doubly linked lists whose nodes are objects of the moving heap, addressed by handle. */
module HandleList {
  import opened Bytes
  import opened HandleHeap
  import opened HeapLayout
  import opened HeapCollector
  import opened ListNodes

  // ---- link fields ----

  method GetPrev(hp: Heap, n: int) returns (v: int)
    requires hp.Valid() && n in Nodes(hp.Store())
    ensures v == Nodes(hp.Store())[n].prev
  {
    var d := hp.ReadBytes(n, 0, 2);
    v := DecodeLink(d);
  }

  method GetNext(hp: Heap, n: int) returns (v: int)
    requires hp.Valid() && n in Nodes(hp.Store())
    ensures v == Nodes(hp.Store())[n].next
  {
    var d := hp.ReadBytes(n, 2, 2);
    v := DecodeLink(d);
  }

  method SetPrev(hp: Heap, n: int, v: int, ghost base: Store, ghost touched: set<int>)
    requires hp.Valid() && n in Nodes(hp.Store()) && IsLink(v)
    requires Kept(base, hp.Store(), touched) && n in touched
    modifies hp, hp.heap
    ensures hp.Valid() && Kept(base, hp.Store(), touched)
    ensures Nodes(hp.Store()) == WithPrev(old(Nodes(hp.Store())), n, v)
  {
    hide Kept, Nodes, WithPrev, Heap.Valid, EncodeLink;
    NodeFits(hp.Store(), n);
    ghost var now := Patched(hp.Store(), n, 0, v);
    PatchedPrev(hp.Store(), n, v);
    KeptAlso(base, hp.Store(), now, touched, n);
    hp.WriteBytes(n, 0, EncodeLink(v));
    assert hp.Store() == now;
  }

  method SetNext(hp: Heap, n: int, v: int, ghost base: Store, ghost touched: set<int>)
    requires hp.Valid() && n in Nodes(hp.Store()) && IsLink(v)
    requires Kept(base, hp.Store(), touched) && n in touched
    modifies hp, hp.heap
    ensures hp.Valid() && Kept(base, hp.Store(), touched)
    ensures Nodes(hp.Store()) == WithNext(old(Nodes(hp.Store())), n, v)
  {
    hide Kept, Nodes, WithNext, Heap.Valid, EncodeLink;
    NodeFits(hp.Store(), n);
    ghost var now := Patched(hp.Store(), n, 2, v);
    PatchedNext(hp.Store(), n, v);
    KeptAlso(base, hp.Store(), now, touched, n);
    hp.WriteBytes(n, 2, EncodeLink(v));
    assert hp.Store() == now;
  }

  method SetLinks(hp: Heap, n: int, prev: int, next: int, ghost base: Store, ghost touched: set<int>)
    requires hp.Valid() && n in Nodes(hp.Store()) && IsLink(prev) && IsLink(next)
    requires Kept(base, hp.Store(), touched) && n in touched
    modifies hp, hp.heap
    ensures hp.Valid() && Kept(base, hp.Store(), touched)
    ensures Nodes(hp.Store()) == WithLinks(old(Nodes(hp.Store())), n, prev, next)
  {
    BothLinks(Nodes(hp.Store()), n, prev, next);
    SetPrev(hp, n, prev, base, touched);
    SetNext(hp, n, next, base, touched);
  }

  /** A new node outside any list, or -1 when the heap cannot hold it. */
  method CreateNode(hp: Heap, data: Option<seq<byte>>, len: nat) returns (n: int)
    requires hp.Valid() && len + LINKS < 65536 && (data.Some? ==> |data.value| == len)
    modifies hp, hp.heap, hp.handles
    ensures hp.Valid()
    ensures n == NO_NODE <==> old(hp.freeSpace) < len + LINKS + OVERHEAD || old(hp.AllHandlesUsed())
    ensures n == NO_NODE ==> hp.Store() == old(hp.Store())
    ensures n != NO_NODE ==>
              && n - 1 !in old(hp.Store()) && n in Nodes(hp.Store())
              && hp.Store() == old(hp.Store())[n - 1 := hp.Store()[n - 1]]
              && Nodes(hp.Store())[n].prev == NO_NODE && Nodes(hp.Store())[n].next == NO_NODE
              && |Nodes(hp.Store())[n].body| == len
              && (data.Some? ==> Nodes(hp.Store())[n].body == data.value)
  {
    hide Heap.Valid, Heap.Store, Kept;
    n := hp.Alloc(LINKS + len);
    if n < 0 {
      return NO_NODE;
    }
    ghost var store := hp.Store();
    assert IsNode(store, n);
    KeptSame(store, {n});
    SetLinks(hp, n, NO_NODE, NO_NODE, store, {n});
    KeptObjects(store, hp.Store(), n);
    if data.Some? {
      FillNode(hp, n, data.value);
    }
  }

  /** Copy data into the body of a node. */
  method FillNode(hp: Heap, n: int, data: seq<byte>)
    requires hp.Valid() && n in Nodes(hp.Store()) && n - 1 in hp.Store() && |hp.Store()[n - 1]| == LINKS + |data|
    modifies hp, hp.heap
    ensures hp.Valid() && n - 1 in hp.Store() && hp.Store() == old(hp.Store())[n - 1 := hp.Store()[n - 1]]
    ensures n in Nodes(hp.Store()) && Nodes(hp.Store())[n] == old(Nodes(hp.Store()))[n].(body := data)
  {
    hide Heap.Valid, Heap.Store, Kept;
    ghost var d := hp.Store()[n - 1];
    hp.WriteBytes(n, LINKS, data);
    assert IsNode(hp.Store(), n);
    BodyWritten(d, data);
  }

  lemma KeptObjects(was: Store, now: Store, n: int)
    requires Kept(was, now, {n}) && n - 1 in was
    ensures n - 1 in now && now == was[n - 1 := now[n - 1]]
  {
    assert forall h :: h in was && h != n - 1 ==> h + 1 !in {n};
  }

  lemma BodyWritten(d: seq<byte>, body: seq<byte>)
    requires |d| == LINKS + |body|
    ensures ReadNode(d[..LINKS] + body + d[LINKS + |body|..]) == ReadNode(d).(body := body)
  {
    var e := d[..LINKS] + body + d[LINKS + |body|..];
    assert e[LINKS..] == body;
    assert forall k :: 0 <= k < LINKS ==> e[k] == d[k];
  }

  function Members(nodes: seq<int>): set<int> {
    set n | n in nodes
  }

  class List {
    var head: int
    var tail: int
    ghost var nodes: seq<int>

    ghost predicate Valid(hp: Heap)
      reads this, hp, hp.heap, hp.handles
    {
      hp.Valid() && IsList(Nodes(hp.Store()), head, tail, nodes)
    }

    constructor ()
      ensures head == tail == NO_NODE && nodes == []
    {
      head, tail, nodes := NO_NODE, NO_NODE, [];
    }

    method InsertAfter(hp: Heap, node: int, newNode: int, ghost i: nat)
      requires Valid(hp) && i < |nodes| && node == nodes[i]
      requires newNode in Nodes(hp.Store()) && newNode !in nodes
      modifies this, hp, hp.heap
      ensures Valid(hp) && nodes == Inserted(old(nodes), i + 1, newNode)
      ensures Kept(old(hp.Store()), hp.Store(), Members(nodes))
    {
      hide Heap.Valid, Heap.Store, Nodes, Kept, IsList;
      ghost var base, view, touched := hp.Store(), Nodes(hp.Store()), Members(Inserted(nodes, i + 1, newNode));
      NodeRange(base, newNode);
      KeptSame(base, touched);
      InsertAfterOk(view, head, tail, nodes, i, newNode);
      assert node in nodes && node in touched && newNode in touched;
      assert i + 1 < |nodes| ==> nodes[i + 1] in nodes && nodes[i + 1] in touched;
      var next := GetNext(hp, node);
      SetLinks(hp, newNode, node, next, base, touched);
      if next < 0 {
        tail := newNode;
      } else {
        SetPrev(hp, next, newNode, base, touched);
      }
      SetNext(hp, node, newNode, base, touched);
      assert Nodes(hp.Store()) == LinkedIn(view, node, newNode);
      nodes := Inserted(nodes, i + 1, newNode);
    }

    method InsertTail(hp: Heap, node: int)
      requires Valid(hp) && node in Nodes(hp.Store()) && node !in nodes
      modifies this, hp, hp.heap
      ensures Valid(hp) && nodes == old(nodes) + [node]
      ensures Kept(old(hp.Store()), hp.Store(), Members(nodes))
    {
      assert nodes != [] ==> Linked(Nodes(hp.Store()), nodes, |nodes| - 1);
      if tail < 0 {
        InsertOnly(hp, node);
      } else {
        InsertAfter(hp, tail, node, |nodes| - 1);
      }
    }

    /** Into an empty list. */
    method InsertOnly(hp: Heap, node: int)
      requires Valid(hp) && nodes == [] && node in Nodes(hp.Store())
      modifies this, hp, hp.heap
      ensures Valid(hp) && nodes == [node]
      ensures Kept(old(hp.Store()), hp.Store(), Members(nodes))
    {
      hide Heap.Valid, Heap.Store, Nodes, Kept, IsList;
      ghost var base, view, touched := hp.Store(), Nodes(hp.Store()), Members([node]);
      NodeRange(base, node);
      KeptSame(base, touched);
      SingletonOk(view, node);
      head := node;
      tail := node;
      SetLinks(hp, node, NO_NODE, NO_NODE, base, touched);
      nodes := [node];
    }

    method InsertHead(hp: Heap, node: int)
      requires Valid(hp) && node in Nodes(hp.Store()) && node !in nodes
      modifies this, hp, hp.heap
      ensures Valid(hp) && nodes == [node] + old(nodes)
      ensures Kept(old(hp.Store()), hp.Store(), Members(nodes))
    {
      assert nodes != [] ==> Linked(Nodes(hp.Store()), nodes, 0);
      if head < 0 {
        InsertOnly(hp, node);
      } else {
        InsertBefore(hp, node);
      }
    }

    /** In front of the head of a list that is not empty. */
    method InsertBefore(hp: Heap, node: int)
      requires Valid(hp) && nodes != [] && node in Nodes(hp.Store()) && node !in nodes
      modifies this, hp, hp.heap
      ensures Valid(hp) && nodes == [node] + old(nodes)
      ensures Kept(old(hp.Store()), hp.Store(), Members(nodes))
    {
      hide Heap.Valid, Heap.Store, Nodes, Kept, IsList;
      ghost var base, view, touched := hp.Store(), Nodes(hp.Store()), Members([node] + nodes);
      NodeRange(base, node);
      KeptSame(base, touched);
      InsertFirstOk(view, head, tail, nodes, node);
      assert head in touched;
      SetPrev(hp, head, node, base, touched);
      SetLinks(hp, node, NO_NODE, head, base, touched);
      head := node;
      nodes := [node] + nodes;
    }

    /** Join the neighbours of a node; the node itself keeps its stale links. */
    method Remove(hp: Heap, node: int, ghost i: nat)
      requires Valid(hp) && i < |nodes| && node == nodes[i]
      modifies this, hp, hp.heap
      ensures Valid(hp) && nodes == Without(old(nodes), i)
      ensures Kept(old(hp.Store()), hp.Store(), Members(nodes))
    {
      hide Heap.Valid, Heap.Store, Nodes, Kept, IsList;
      ghost var base, view, rest := hp.Store(), Nodes(hp.Store()), Without(nodes, i);
      KeptSame(base, Members(rest));
      RemoveOk(view, head, tail, nodes, i);
      assert i > 0 ==> rest[i - 1] == nodes[i - 1];
      assert i + 1 < |nodes| ==> rest[i] == nodes[i + 1];
      var prev := GetPrev(hp, node);
      var next := GetNext(hp, node);
      if prev < 0 {
        head := next;
      } else {
        SetNext(hp, prev, next, base, Members(rest));
      }
      if next < 0 {
        tail := prev;
      } else {
        SetPrev(hp, next, prev, base, Members(rest));
      }
      assert Nodes(hp.Store()) == LinkedOut(view, node);
      nodes := rest;
    }

    /** The tail node, or -1 from an empty list. */
    method RemoveTail(hp: Heap) returns (node: int)
      requires Valid(hp)
      modifies this, hp, hp.heap
      ensures Valid(hp) && Kept(old(hp.Store()), hp.Store(), Members(nodes))
      ensures if old(nodes) == [] then node == NO_NODE && nodes == []
              else node == old(nodes)[|old(nodes)| - 1] && nodes == old(nodes)[..|old(nodes)| - 1]
    {
      node := tail;
      if node >= 0 {
        assert Linked(Nodes(hp.Store()), nodes, |nodes| - 1);
        Remove(hp, node, |nodes| - 1);
      } else {
        assert nodes != [] ==> Linked(Nodes(hp.Store()), nodes, |nodes| - 1);
      }
    }

    // ---- traversal ----

    /** The 8-bit count wraps: a list of 256 nodes counts as zero. */
    method Count(hp: Heap) returns (count: nat)
      requires Valid(hp)
      ensures count == |nodes| % 256
    {
      hide Heap.Valid, Heap.Store, Nodes, IsList;
      RealNodes(Nodes(hp.Store()), head, tail, nodes);
      count := 0;
      var node := head;
      ghost var i := 0;
      while node >= 0
        invariant 0 <= i <= |nodes| && node == Nth(nodes, i) && count == i % 256
        decreases |nodes| - i
      {
        count := (count + 1) % 256;
        node := GetNext(hp, node);
        i := i + 1;
      }
    }

    ghost function Data(hp: Heap): seq<byte>
      reads this, hp
    {
      Flat(Nodes(hp.Store()), nodes)
    }

    method NodeSize(hp: Heap, node: int) returns (size: nat)
      requires hp.Valid() && node in Nodes(hp.Store())
      ensures size == |Nodes(hp.Store())[node].body|
    {
      var n := hp.GetSize(node);
      size := n - LINKS;
    }

    method Size(hp: Heap) returns (size: nat)
      requires Valid(hp)
      ensures size == |Data(hp)| < 65536
    {
      hide Heap.Valid, Heap.Store, Nodes, IsList;
      ghost var view := Nodes(hp.Store());
      ListFits(hp, head, tail, nodes);
      RealNodes(view, head, tail, nodes);
      size := 0;
      var node := head;
      ghost var i := 0;
      while node >= 0
        invariant 0 <= i <= |nodes| && node == Nth(nodes, i) && size == |Flat(view, nodes[..i])|
        decreases |nodes| - i
      {
        FlatAt(view, nodes, i);
        var n := NodeSize(hp, node);
        size := size + n;
        node := GetNext(hp, node);
        i := i + 1;
      }
      assert nodes[..i] == nodes;
    }

    /** Copy up to `len` bytes of the concatenated node data, from `start`, into a buffer. */
    method Flatten(hp: Heap, start: nat, dest: array<byte>, len: nat) returns (copied: nat)
      requires Valid(hp) && start < 65536 && len <= dest.Length && len < 65536 && dest != hp.heap
      modifies dest
      ensures copied == if start >= |Data(hp)| then 0 else if |Data(hp)| - start < len then |Data(hp)| - start else len
      ensures copied > 0 ==> dest[..copied] == Data(hp)[start..start + copied]
      ensures dest[copied..] == old(dest[copied..])
    {
      hide Heap.Valid, Heap.Store, Nodes, IsList, Collected, Flat;
      ghost var view := Nodes(hp.Store());
      ghost var flat := Flat(view, nodes);
      ListFits(hp, head, tail, nodes);
      RealNodes(view, head, tail, nodes);
      var pos, left, current: nat := start, len, 0;
      copied := 0;
      var node := head;
      ghost var i := 0;
      CollectNone(flat, start, dest[..]);
      FlatEnds(view, nodes);
      while node >= 0 && left > 0
        invariant 0 <= i <= |nodes| && node == Nth(nodes, i) && current == |Flat(view, nodes[..i])| <= |flat|
        invariant copied + left == len && pos == start + copied
        invariant left > 0 ==> pos >= current
        invariant copied > 0 ==> pos <= current
        invariant Collected(flat, start, dest[..], old(dest[..]), copied)
        decreases |nodes| - i
      {
        FlatAt(view, nodes, i);
        var size := NodeSize(hp, node);
        assert current + size < 65536;
        var n := CopyPiece(hp, node, current, size, pos, left, dest, copied, start, flat, old(dest[..]));
        copied, pos, left := copied + n, pos + n, left - n;
        current := current + size;
        node := GetNext(hp, node);
        i := i + 1;
      }
      assert node < 0 ==> i == |nodes|;
      CollectDone(flat, start, dest[..], old(dest[..]), copied);
    }

    /** A collector pass moves the objects, never the list: same nodes, same order, same data. */
    method CollectGarbage(hp: Heap)
      requires Valid(hp)
      modifies hp, hp.heap, hp.handles
      ensures Valid(hp) && nodes == old(nodes) && Data(hp) == old(Data(hp))
      ensures hp.Store() == old(hp.Store())
    {
      hide Heap.Valid, Heap.Store;
      Collect(hp);
    }

    /** Release every node and forget them. */
    method Destroy(hp: Heap)
      requires Valid(hp)
      modifies this, hp, hp.heap, hp.handles
      ensures Valid(hp) && nodes == [] && head == tail == NO_NODE
      ensures hp.Store() == old(hp.Store()) - Indexes(old(nodes))
    {
      hide Heap.Valid, Heap.Store, Nodes, IsList, Indexes;
      ghost var base, i := hp.Store(), 0;
      RealNodes(Nodes(base), head, tail, nodes);
      var node := head;
      NoIndexes(nodes);
      while node >= 0
        invariant hp.Valid() && 0 <= i <= |nodes| && node == Nth(nodes, i)
        invariant hp.Store() == base - Indexes(nodes[..i])
        invariant nodes == old(nodes) && IsList(Nodes(base), head, tail, nodes)
        decreases |nodes| - i
        modifies hp, hp.heap, hp.handles
      {
        NextToFree(base, head, tail, nodes, i);
        var next := GetNext(hp, node);
        ReleaseNode(hp, node);
        node := next;
        i := i + 1;
      }
      assert nodes[..i] == nodes;
      EmptyOk(Nodes(hp.Store()));
      head, tail, nodes := NO_NODE, NO_NODE, [];
    }
  }

  method CopyOut(dest: array<byte>, at: nat, d: seq<byte>)
    requires at + |d| <= dest.Length
    modifies dest
    ensures dest[..] == old(dest[..])[..at] + d + old(dest[..])[at + |d|..]
  {
    ghost var was := dest[..];
    for k := 0 to |d|
      invariant dest[..] == was[..at] + d[..k] + was[at + k..]
    {
      SplicedMore(was, at, d, k);
      ghost var now := dest[..][at + k := d[k]];
      dest[at + k] := d[k];
      assert dest[..] == now;
    }
  }

  /** The first `copied` bytes of the buffer are the wanted slice, the others are as they were. */
  predicate Collected(flat: seq<byte>, start: nat, dest: seq<byte>, was: seq<byte>, copied: nat) {
    && |dest| == |was| && copied <= |dest|
    && (copied > 0 ==> start + copied <= |flat| && dest[..copied] == flat[start..start + copied])
    && dest[copied..] == was[copied..]
  }

  /** A further piece, taken from the node whose data sits at flat[at..at + size]. */
  lemma CollectMore(flat: seq<byte>, start: nat, dest: seq<byte>, was: seq<byte>, copied: nat, at: nat, size: nat,
                    d: seq<byte>)
    requires Collected(flat, start, dest, was, copied) && copied + |d| <= |dest|
    requires at <= start + copied && start + copied + |d| <= at + size <= |flat|
    requires d == flat[at..at + size][start + copied - at..start + copied - at + |d|]
    ensures Collected(flat, start, dest[..copied] + d + dest[copied + |d|..], was, copied + |d|)
  {
    var p := start + copied;
    SliceSlice(flat, at, at + size, p - at, p - at + |d|);
    var now := dest[..copied] + d + dest[copied + |d|..];
    assert now[..copied + |d|] == dest[..copied] + d;
    assert flat[start..p + |d|] == flat[start..p] + flat[p..p + |d|];
    assert copied == 0 ==> dest[..copied] == [] == flat[start..p];
    assert was[copied + |d|..] == was[copied..][|d|..] && dest[copied + |d|..] == dest[copied..][|d|..];
  }

  lemma CollectNone(flat: seq<byte>, start: nat, dest: seq<byte>)
    ensures Collected(flat, start, dest, dest, 0)
  {
  }

  lemma CollectDone(flat: seq<byte>, start: nat, dest: seq<byte>, was: seq<byte>, copied: nat)
    requires Collected(flat, start, dest, was, copied)
    ensures |dest| == |was| && copied <= |dest| && dest[copied..] == was[copied..]
    ensures copied > 0 ==> start + copied <= |flat| && dest[..copied] == flat[start..start + copied]
  {
  }

  /** If `pos` lies in this node, copy from there to its end or until `left` bytes are copied. */
  method CopyPiece(hp: Heap, node: int, current: nat, size: nat, pos: nat, left: nat, dest: array<byte>, copied: nat,
                   ghost start: nat, ghost flat: seq<byte>, ghost was: seq<byte>) returns (n: nat)
    requires hp.Valid() && node in Nodes(hp.Store()) && dest != hp.heap && copied + left <= dest.Length
    requires current + size <= |flat| && Nodes(hp.Store())[node].body == flat[current..current + size]
    requires Collected(flat, start, dest[..], was, copied) && pos == start + copied
    modifies dest
    ensures n == if !(current <= pos < current + size) then 0
                 else if current + size - pos > left then left else current + size - pos
    ensures Collected(flat, start, dest[..], was, copied + n)
  {
    hide Heap.Valid, Heap.Store, Nodes, Collected;
    n := 0;
    if pos >= current && pos < current + size {
      var offset := pos - current;
      n := size - offset;
      if n > left {
        n := left;
      }
      var d := ReadBody(hp, node, offset, n);
      CollectMore(flat, start, dest[..], was, copied, current, size, d);
      CopyOut(dest, copied, d);
    }
  }

  method ReadBody(hp: Heap, node: int, offset: nat, n: nat) returns (d: seq<byte>)
    requires hp.Valid() && node in Nodes(hp.Store()) && offset + n <= |Nodes(hp.Store())[node].body|
    ensures d == Nodes(hp.Store())[node].body[offset..offset + n]
  {
    d := hp.ReadBytes(node, LINKS + offset, n);
  }

  /** The node must have been taken out of its list first. */
  method ReleaseNode(hp: Heap, node: int)
    requires hp.Valid() && node in Nodes(hp.Store())
    modifies hp, hp.heap, hp.handles
    ensures hp.Valid() && hp.Store() == old(hp.Store()) - {node - 1}
  {
    hp.Free(node);
  }

  function Indexes(nodes: seq<int>): set<nat> {
    set k | 0 <= k < |nodes| && nodes[k] >= 1 :: nodes[k] - 1
  }

  lemma NoIndexes(nodes: seq<int>)
    ensures Indexes(nodes[..0]) == {}
  {
  }

  lemma EmptyOk(view: View)
    ensures IsList(view, NO_NODE, NO_NODE, [])
  {
  }

  lemma NextToFree(base: Store, head: int, tail: int, nodes: seq<int>, i: nat)
    requires IsList(Nodes(base), head, tail, nodes) && i < |nodes|
    ensures var now := base - Indexes(nodes[..i]);
            && nodes[i] in Nodes(now) && Nodes(now)[nodes[i]].next == Nth(nodes, i + 1)
            && now - {nodes[i] - 1} == base - Indexes(nodes[..i + 1])
  {
    assert Linked(Nodes(base), nodes, i);
    var now := base - Indexes(nodes[..i]);
    assert IsNode(now, nodes[i]);
    assert Indexes(nodes[..i + 1]) == Indexes(nodes[..i]) + {nodes[i] - 1};
  }

  // ---- room ----

  function SumData(blocks: seq<Block>, at: seq<nat>): nat {
    if at == [] then 0
    else SumData(blocks, at[..|at| - 1]) + (if at[|at| - 1] < |blocks| then |blocks[at[|at| - 1]].data| else 0)
  }

  lemma {:induction false} SumSame(a: seq<Block>, b: seq<Block>, at: seq<nat>)
    requires forall k :: 0 <= k < |at| ==> at[k] < |a| && at[k] < |b| && a[at[k]].data == b[at[k]].data
    ensures SumData(a, at) == SumData(b, at)
  {
    if at != [] {
      SumSame(a, b, at[..|at| - 1]);
    }
  }

  /** Distinct live blocks hold no more than all live blocks. */
  lemma {:induction false} DistinctSum(blocks: seq<Block>, at: seq<nat>)
    requires BlocksOk(blocks)
    requires forall k :: 0 <= k < |at| ==> at[k] < |blocks| && !blocks[at[k]].dirty
    requires forall j, k :: 0 <= j < k < |at| ==> at[j] != at[k]
    ensures SumData(blocks, at) <= DataBytes(blocks)
    decreases |at|
  {
    if at != [] {
      var init, last := at[..|at| - 1], at[|at| - 1];
      var less := blocks[last := blocks[last].(dirty := true)];
      LiveWithout(blocks, last);
      DistinctSum(less, init);
      SumSame(blocks, less, init);
    }
  }

  lemma NodeBlock(hp: Heap, n: int) returns (s: nat)
    requires hp.Valid() && n in Nodes(hp.Store())
    ensures s < |hp.blocks| && !hp.blocks[s].dirty && hp.blocks[s].handle == n - 1
    ensures |BodyOf(Nodes(hp.Store()), n)| <= |hp.blocks[s].data|
  {
    hp.Located(n - 1);
    s := hp.slot[n - 1];
  }

  lemma BlocksFine(hp: Heap)
    requires hp.Valid()
    ensures BlocksOk(hp.blocks) && DataBytes(hp.blocks) == hp.dataSpace <= HEAP_SIZE
  {
    hp.Bookkeeping();
  }

  /** at[k] is the live block that carries the k-th node. */
  predicate Carriers(blocks: seq<Block>, nodes: seq<int>, at: seq<nat>) {
    && |at| <= |nodes|
    && forall k :: 0 <= k < |at| ==> at[k] < |blocks| && !blocks[at[k]].dirty && blocks[at[k]].handle == nodes[k] - 1
  }

  lemma OneMoreCarrier(blocks: seq<Block>, nodes: seq<int>, at: seq<nat>, s: nat)
    requires Carriers(blocks, nodes, at) && |at| < |nodes|
    requires s < |blocks| && !blocks[s].dirty && blocks[s].handle == nodes[|at|] - 1
    ensures Carriers(blocks, nodes, at + [s])
    ensures SumData(blocks, at + [s]) == SumData(blocks, at) + |blocks[s].data|
  {
    SumMore(blocks, at, s);
    hide SumData;
  }

  lemma SumMore(blocks: seq<Block>, at: seq<nat>, s: nat)
    requires s < |blocks|
    ensures SumData(blocks, at + [s]) == SumData(blocks, at) + |blocks[s].data|
  {
    assert (at + [s])[..|at|] == at;
  }

  lemma CarriersFit(blocks: seq<Block>, nodes: seq<int>, at: seq<nat>)
    requires BlocksOk(blocks) && Carriers(blocks, nodes, at) && Distinct(nodes)
    ensures SumData(blocks, at) <= DataBytes(blocks)
  {
    DistinctSum(blocks, at);
  }

  /** The data of a list fits 16 bits, so no position counter wraps. */
  lemma ListFits(hp: Heap, head: int, tail: int, nodes: seq<int>)
    requires hp.Valid() && IsList(Nodes(hp.Store()), head, tail, nodes)
    ensures |Flat(Nodes(hp.Store()), nodes)| <= hp.dataSpace <= HEAP_SIZE
  {
    ghost var view, blocks := Nodes(hp.Store()), hp.blocks;
    RealNodes(view, head, tail, nodes);
    FlatEnds(view, nodes);
    BlocksFine(hp);
    hide Heap.Valid, Heap.Store, Nodes, Flat, BodyOf, Carriers, SumData;
    var at: seq<nat> := [];
    NoCarriers(blocks, nodes);
    for i := 0 to |nodes|
      invariant |at| == i && Carriers(blocks, nodes, at)
      invariant |Flat(view, nodes[..i])| <= SumData(blocks, at)
    {
      var s := NodeBlock(hp, nodes[i]);
      FlatAt(view, nodes, i);
      OneMoreCarrier(blocks, nodes, at, s);
      at := at + [s];
    }
    CarriersFit(blocks, nodes, at);
  }

  lemma NoCarriers(blocks: seq<Block>, nodes: seq<int>)
    ensures Carriers(blocks, nodes, []) && SumData(blocks, []) == 0
  {
  }
}
