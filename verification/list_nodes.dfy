/** Doubly linked lists of handles, stated on values: what the heap stores, read as nodes. */
module ListNodes {
  import opened Bytes

  /** Two 16-bit links precede the data of a node. */
  const LINKS: nat := 4
  const NO_NODE: int := -1

  datatype Node = Node(prev: int, next: int, body: seq<byte>)

  type Store = map<nat, seq<byte>>
  type View = map<int, Node>

  predicate IsLink(v: int) { v == NO_NODE || 1 <= v <= 256 }

  /** A signed 16-bit link, little-endian. */
  function EncodeLink(v: int): (r: seq<byte>)
    requires -32768 <= v < 32768
    ensures |r| == 2
  {
    [v % 65536 % 256, v % 65536 / 256]
  }

  function DecodeLink(s: seq<byte>): int
    requires |s| >= 2
  {
    var lo: int, hi: int := s[0], s[1];
    var u := lo + 256 * hi;
    if u >= 32768 then u - 65536 else u
  }

  lemma LinkRoundTrip(v: int, rest: seq<byte>)
    requires -32768 <= v < 32768
    ensures DecodeLink(EncodeLink(v) + rest) == v
  {
    var u := v % 65536;
    assert u == u % 256 + 256 * (u / 256);
  }

  /** The bytes of a node: the link back, the link forward, low byte first, and 0xffff for none; then the data. */
  lemma NodeBytes(d: seq<byte>)
    requires |d| >= 4
    ensures var lo, hi := d[0] as int + 256 * d[1] as int, d[2] as int + 256 * d[3] as int;
            && (ReadNode(d).prev == -1 <==> lo == 0xffff) && (ReadNode(d).next == -1 <==> hi == 0xffff)
            && (lo < 32768 ==> ReadNode(d).prev == lo) && (hi < 32768 ==> ReadNode(d).next == hi)
            && ReadNode(d).body == d[4..]
  {
    assert d[2..][0] == d[2] && d[2..][1] == d[3];
  }

  function ReadNode(d: seq<byte>): Node
    requires |d| >= LINKS
  {
    Node(DecodeLink(d), DecodeLink(d[2..]), d[LINKS..])
  }

  predicate IsNode(store: Store, n: int) {
    n - 1 in store && |store[n - 1]| >= LINKS
  }

  /** Every heap object large enough to be a node, by external handle (one more than its index). */
  function Nodes(store: Store): View {
    map n: int | 1 <= n <= 256 && IsNode(store, n) :: ReadNode(store[n - 1])
  }

  /** The store with the two bytes at `off` of one object replaced. */
  function Patched(store: Store, n: int, off: nat, v: int): Store
    requires n - 1 in store && off + 2 <= |store[n - 1]| && IsLink(v)
  {
    store[n - 1 := store[n - 1][..off] + EncodeLink(v) + store[n - 1][off + 2..]]
  }

  /** Replacing the bytes of a node changes only what that node reads as. */
  lemma NodeChanged(store: Store, n: int, e: seq<byte>)
    requires n in Nodes(store) && |e| == |store[n - 1]| && ReadNode(e).body == Nodes(store)[n].body
    ensures Nodes(store[n - 1 := e]) == Nodes(store)[n := ReadNode(e)]
    ensures Kept(store, store[n - 1 := e], {n})
  {
    var now := store[n - 1 := e];
    assert forall m :: IsNode(now, m) == IsNode(store, m);
  }

  lemma PrevBytes(d: seq<byte>, v: int)
    requires |d| >= LINKS && IsLink(v)
    ensures ReadNode(d[..0] + EncodeLink(v) + d[2..]) == ReadNode(d).(prev := v)
  {
    var e := d[..0] + EncodeLink(v) + d[2..];
    LinkRoundTrip(v, d[2..]);
    assert e == EncodeLink(v) + d[2..];
    assert e[2..] == d[2..] && e[LINKS..] == d[LINKS..];
  }

  lemma NextBytes(d: seq<byte>, v: int)
    requires |d| >= LINKS && IsLink(v)
    ensures ReadNode(d[..2] + EncodeLink(v) + d[4..]) == ReadNode(d).(next := v)
  {
    var e := d[..2] + EncodeLink(v) + d[4..];
    LinkRoundTrip(v, d[4..]);
    assert e[2..] == EncodeLink(v) + d[4..];
    assert e[LINKS..] == d[LINKS..] && e[0] == d[0] && e[1] == d[1];
  }

  lemma PatchedPrev(store: Store, n: int, v: int)
    requires n in Nodes(store) && IsLink(v)
    ensures Nodes(Patched(store, n, 0, v)) == WithPrev(Nodes(store), n, v)
    ensures Kept(store, Patched(store, n, 0, v), {n})
  {
    PrevBytes(store[n - 1], v);
    NodeChanged(store, n, store[n - 1][..0] + EncodeLink(v) + store[n - 1][2..]);
  }

  lemma PatchedNext(store: Store, n: int, v: int)
    requires n in Nodes(store) && IsLink(v)
    ensures Nodes(Patched(store, n, 2, v)) == WithNext(Nodes(store), n, v)
    ensures Kept(store, Patched(store, n, 2, v), {n})
  {
    NextBytes(store[n - 1], v);
    NodeChanged(store, n, store[n - 1][..2] + EncodeLink(v) + store[n - 1][4..]);
  }

  function WithPrev(view: View, n: int, v: int): View
    requires n in view
  {
    view[n := view[n].(prev := v)]
  }

  function WithNext(view: View, n: int, v: int): View
    requires n in view
  {
    view[n := view[n].(next := v)]
  }

  function WithLinks(view: View, n: int, prev: int, next: int): View
    requires n in view
  {
    view[n := view[n].(prev := prev, next := next)]
  }

  lemma BothLinks(view: View, n: int, prev: int, next: int)
    requires n in view
    ensures WithNext(WithPrev(view, n, prev), n, next) == WithLinks(view, n, prev, next)
  {
    var l, r := WithNext(WithPrev(view, n, prev), n, next), WithLinks(view, n, prev, next);
    assert l[n] == r[n];
  }

  /** Nothing but the links of the nodes in `touched` differs. */
  predicate Kept(was: Store, now: Store, touched: set<int>) {
    && was.Keys == now.Keys
    && (forall h :: h in was && h + 1 !in touched ==> now[h] == was[h])
    && Nodes(was).Keys == Nodes(now).Keys
    && forall n :: n in Nodes(was) ==> Nodes(now)[n].body == Nodes(was)[n].body
  }

  lemma NodeFits(store: Store, n: int)
    requires n in Nodes(store)
    ensures 1 <= n <= 256 && n - 1 in store && |store[n - 1]| >= LINKS
  {
  }

  lemma KeptSame(store: Store, s: set<int>)
    ensures Kept(store, store, s)
  {
  }

  lemma NodeRange(store: Store, n: int)
    requires n in Nodes(store)
    ensures 1 <= n <= 256
  {
  }

  lemma KeptThen(a: Store, b: Store, c: Store, s: set<int>, t: set<int>)
    requires Kept(a, b, s) && Kept(b, c, t)
    ensures Kept(a, c, s + t)
  {
  }

  lemma KeptAlso(a: Store, b: Store, c: Store, s: set<int>, n: int)
    requires Kept(a, b, s) && Kept(b, c, {n}) && n in s
    ensures Kept(a, c, s)
  {
    KeptThen(a, b, c, s, {n});
    assert s + {n} == s;
  }

  // ---- lists ----

  function Nth(nodes: seq<int>, i: int): int {
    if 0 <= i < |nodes| then nodes[i] else NO_NODE
  }

  predicate Linked(view: View, nodes: seq<int>, i: nat)
    requires i < |nodes|
  {
    && 1 <= nodes[i] <= 256 && nodes[i] in view
    && view[nodes[i]].prev == Nth(nodes, i - 1)
    && view[nodes[i]].next == Nth(nodes, i + 1)
  }

  /** Head, tail and all links spell out exactly `nodes`. */
  predicate IsList(view: View, head: int, tail: int, nodes: seq<int>) {
    && head == Nth(nodes, 0) && tail == Nth(nodes, |nodes| - 1)
    && Distinct(nodes)
    && forall i :: 0 <= i < |nodes| ==> Linked(view, nodes, i)
  }

  lemma RealNodes(view: View, head: int, tail: int, nodes: seq<int>)
    requires IsList(view, head, tail, nodes)
    ensures head == Nth(nodes, 0)
    ensures forall i :: 0 <= i < |nodes| ==>
        1 <= nodes[i] <= 256 && nodes[i] in view && view[nodes[i]].next == Nth(nodes, i + 1)
  {
    forall i | 0 <= i < |nodes|
      ensures 1 <= nodes[i] <= 256 && nodes[i] in view && view[nodes[i]].next == Nth(nodes, i + 1)
    {
      assert Linked(view, nodes, i);
    }
  }

  /** Lists live only in the objects of their nodes. */
  lemma SameObjects(was: Store, now: Store, head: int, tail: int, nodes: seq<int>)
    requires IsList(Nodes(was), head, tail, nodes)
    requires forall i :: 0 <= i < |nodes| ==>
        nodes[i] - 1 in now && nodes[i] - 1 in was && now[nodes[i] - 1] == was[nodes[i] - 1]
    ensures IsList(Nodes(now), head, tail, nodes) && Flat(Nodes(now), nodes) == Flat(Nodes(was), nodes)
  {
    forall i | 0 <= i < |nodes|
      ensures Linked(Nodes(now), nodes, i) && BodyOf(Nodes(was), nodes[i]) == BodyOf(Nodes(now), nodes[i])
    {
      assert Linked(Nodes(was), nodes, i) && IsNode(now, nodes[i]);
    }
    FlatSame(Nodes(was), Nodes(now), nodes);
  }

  /** A list that shares no node with the changed ones is still the same list. */
  lemma OtherList(was: Store, now: Store, touched: set<int>, head: int, tail: int, nodes: seq<int>)
    requires Kept(was, now, touched) && IsList(Nodes(was), head, tail, nodes)
    requires forall n :: n in nodes ==> n !in touched
    ensures IsList(Nodes(now), head, tail, nodes) && Flat(Nodes(now), nodes) == Flat(Nodes(was), nodes)
  {
    forall i | 0 <= i < |nodes|
      ensures nodes[i] - 1 in now && nodes[i] - 1 in was && now[nodes[i] - 1] == was[nodes[i] - 1]
    {
      assert Linked(Nodes(was), nodes, i) && nodes[i] in nodes;
      assert (nodes[i] - 1) + 1 !in touched;
    }
    SameObjects(was, now, head, tail, nodes);
  }

  /** Inserting and removing move nodes around but keep what every node carries. */
  lemma SameBodies(was: Store, now: Store, touched: set<int>, nodes: seq<int>)
    requires Kept(was, now, touched)
    ensures Flat(Nodes(now), nodes) == Flat(Nodes(was), nodes)
  {
    FlatSame(Nodes(was), Nodes(now), nodes);
  }

  function BodyOf(view: View, n: int): seq<byte> {
    if n in view then view[n].body else []
  }

  /** The data of all nodes, one after the other. */
  function Flat(view: View, nodes: seq<int>): seq<byte>
  {
    if nodes == [] then [] else Flat(view, nodes[..|nodes| - 1]) + BodyOf(view, nodes[|nodes| - 1])
  }

  lemma {:induction false} FlatSame(a: View, b: View, nodes: seq<int>)
    requires forall i :: 0 <= i < |nodes| ==> BodyOf(a, nodes[i]) == BodyOf(b, nodes[i])
    ensures Flat(a, nodes) == Flat(b, nodes)
  {
    if nodes != [] {
      FlatSame(a, b, nodes[..|nodes| - 1]);
    }
  }

  lemma FlatEnds(view: View, nodes: seq<int>)
    ensures Flat(view, nodes[..0]) == [] && nodes[..|nodes|] == nodes
  {
  }

  lemma {:induction false} FlatAt(view: View, nodes: seq<int>, i: nat)
    requires i < |nodes|
    ensures var at, body := |Flat(view, nodes[..i])|, BodyOf(view, nodes[i]);
            && |Flat(view, nodes[..i + 1])| == at + |body| <= |Flat(view, nodes)|
            && Flat(view, nodes)[at..at + |body|] == body
  {
    assert nodes[..i + 1][..i] == nodes[..i];
    if i + 1 == |nodes| {
      assert nodes[..i + 1] == nodes;
    } else {
      var init := nodes[..|nodes| - 1];
      FlatAt(view, init, i);
      assert init[..i] == nodes[..i] && init[..i + 1] == nodes[..i + 1];
    }
  }

  // ---- insertion ----

  function Inserted(nodes: seq<int>, i: nat, n: int): seq<int>
    requires i <= |nodes|
  {
    nodes[..i] + [n] + nodes[i..]
  }

  lemma InsertedDistinct(nodes: seq<int>, i: nat, n: int)
    requires Distinct(nodes) && n !in nodes && i <= |nodes|
    ensures Distinct(Inserted(nodes, i, n))
  {
  }

  /** View after the three link updates of an insertion behind nodes[i]. */
  function LinkedIn(view: View, node: int, n: int): View
    requires node in view && n in view && (view[node].next >= 0 ==> view[node].next in view)
  {
    var next := view[node].next;
    var v1 := WithLinks(view, n, node, next);
    WithNext(if next < 0 then v1 else WithPrev(v1, next, n), node, n)
  }

  lemma InsertAfterOk(view: View, head: int, tail: int, nodes: seq<int>, i: nat, n: int)
    requires IsList(view, head, tail, nodes) && i < |nodes| && n in view && 1 <= n <= 256 && n !in nodes
    ensures nodes[i] in view && IsLink(nodes[i]) && view[nodes[i]].next == Nth(nodes, i + 1)
    ensures i + 1 < |nodes| ==> nodes[i + 1] in view && 1 <= nodes[i + 1] <= 256
    ensures IsList(LinkedIn(view, nodes[i], n), head, if i + 1 == |nodes| then n else tail, Inserted(nodes, i + 1, n))
  {
    assert Linked(view, nodes, i) && (i + 1 < |nodes| ==> Linked(view, nodes, i + 1));
    var r, w := Inserted(nodes, i + 1, n), LinkedIn(view, nodes[i], n);
    InsertedDistinct(nodes, i + 1, n);
    forall k | 0 <= k < |r|
      ensures Linked(w, r, k)
    {
      if k <= i {
        assert Linked(view, nodes, k);
      } else if k > i + 1 {
        assert Linked(view, nodes, k - 1);
      }
    }
  }

  lemma InsertFirstOk(view: View, head: int, tail: int, nodes: seq<int>, n: int)
    requires IsList(view, head, tail, nodes) && nodes != [] && n in view && 1 <= n <= 256 && n !in nodes
    ensures head in view && head in nodes && 1 <= head <= 256
    ensures IsList(WithLinks(WithPrev(view, head, n), n, NO_NODE, head), n, tail, [n] + nodes)
  {
    assert Linked(view, nodes, 0);
    var w, r := WithLinks(WithPrev(view, head, n), n, NO_NODE, head), [n] + nodes;
    forall k | 0 <= k < |r|
      ensures Linked(w, r, k)
    {
      if k > 0 {
        assert Linked(view, nodes, k - 1);
      }
    }
  }

  lemma SingletonOk(view: View, n: int)
    requires n in view && 1 <= n <= 256
    ensures IsList(WithLinks(view, n, NO_NODE, NO_NODE), n, n, [n])
  {
    assert Linked(WithLinks(view, n, NO_NODE, NO_NODE), [n], 0);
  }

  // ---- removal ----

  function Without(nodes: seq<int>, i: nat): seq<int>
    requires i < |nodes|
  {
    nodes[..i] + nodes[i + 1..]
  }

  /** View after the neighbours of a node have been joined. */
  function LinkedOut(view: View, n: int): View
    requires n in view && (view[n].prev >= 0 ==> view[n].prev in view) && (view[n].next >= 0 ==> view[n].next in view)
  {
    var prev, next := view[n].prev, view[n].next;
    var v1 := if prev < 0 then view else WithNext(view, prev, next);
    if next < 0 then v1 else WithPrev(v1, next, prev)
  }

  lemma RemoveOk(view: View, head: int, tail: int, nodes: seq<int>, i: nat)
    requires IsList(view, head, tail, nodes) && i < |nodes|
    ensures nodes[i] in view && view[nodes[i]].prev == Nth(nodes, i - 1) && view[nodes[i]].next == Nth(nodes, i + 1)
    ensures i > 0 ==> nodes[i - 1] in view && 1 <= nodes[i - 1] <= 256
    ensures i + 1 < |nodes| ==> nodes[i + 1] in view && 1 <= nodes[i + 1] <= 256
    ensures var n := view[nodes[i]];
            IsList(LinkedOut(view, nodes[i]), if n.prev < 0 then n.next else head, if n.next < 0 then n.prev else tail,
                   Without(nodes, i))
  {
    assert Linked(view, nodes, i) && (i > 0 ==> Linked(view, nodes, i - 1));
    assert i + 1 < |nodes| ==> Linked(view, nodes, i + 1);
    var r, w := Without(nodes, i), LinkedOut(view, nodes[i]);
    forall k | 0 <= k < |r|
      ensures Linked(w, r, k)
    {
      if k < i {
        assert Linked(view, nodes, k);
      } else {
        assert Linked(view, nodes, k + 1);
      }
    }
  }
}
