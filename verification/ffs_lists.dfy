/** The singly linked lists threaded through one `next_block` array: one per file, the free list, the dirty list. */
module FfsLists {
  import opened Bytes

  const FILES: nat := 16
  const FREE: nat := 16
  const DIRTY: nat := 17
  const LISTS: nat := 18

  /** `next` and `heads` are the real link arrays; `lists` is what they spell; `owner` names each block's list (-1:
      none). */
  datatype Links = Links(next: seq<int>, heads: seq<int>, lists: seq<seq<int>>, owner: seq<int>)

  function First(list: seq<int>): int { if list == [] then -1 else list[0] }

  function After(list: seq<int>, i: nat): int { if i + 1 < |list| then list[i + 1] else -1 }

  predicate Chain(next: seq<int>, head: int, list: seq<int>) {
    && head == First(list)
    && forall i :: 0 <= i < |list| ==> 0 <= list[i] < |next| && next[list[i]] == After(list, i)
  }

  predicate Shape(k: Links) {
    |k.heads| == |k.lists| == LISTS && |k.next| == |k.owner|
  }

  predicate ListOk(k: Links, l: nat)
    requires Shape(k) && l < LISTS
  {
    && Chain(k.next, k.heads[l], k.lists[l])
    && Distinct(k.lists[l])
    && forall i :: 0 <= i < |k.lists[l]| ==> k.owner[k.lists[l][i]] == l
  }

  predicate BlockOwned(k: Links, b: nat)
    requires Shape(k) && b < |k.owner|
  {
    k.owner[b] == -1 || (0 <= k.owner[b] < LISTS && b in k.lists[k.owner[b]])
  }

  predicate LinksOk(k: Links) {
    && Shape(k)
    && (forall l :: 0 <= l < LISTS ==> ListOk(k, l))
    && (forall b :: 0 <= b < |k.owner| ==> BlockOwned(k, b))
  }

  /** Every block is on a list: nothing is leaked. */
  predicate AllOwned(k: Links) {
    forall b :: 0 <= b < |k.owner| ==> k.owner[b] != -1
  }

  lemma NotOnList(k: Links, l: nat, b: nat)
    requires LinksOk(k) && l < LISTS && b < |k.owner| && k.owner[b] != l
    ensures b !in k.lists[l]
  {
    assert ListOk(k, l);
  }

  /** All `n` blocks on the free list, in order. */
  function AllFree(n: nat): Links {
    Links(seq(n, i => if i + 1 < n then i + 1 else -1),
          seq(LISTS, l => if l == FREE && n > 0 then 0 else -1),
          seq(LISTS, l => if l == FREE then seq(n, i => i) else []),
          seq(n, i => FREE))
  }

  lemma AllFreeOk(n: nat)
    ensures LinksOk(AllFree(n)) && AllOwned(AllFree(n))
  {
    var k := AllFree(n);
    forall b | 0 <= b < n
      ensures BlockOwned(k, b)
    {
      assert k.lists[FREE][b] == b;
    }
    forall l | 0 <= l < LISTS
      ensures ListOk(k, l)
    {
      if l != FREE {
        assert k.lists[l] == [] && k.heads[l] == -1;
      }
    }
  }

  // ---- the three list updates ----

  /** Take the head block off list `l`; its own link becomes `v`. */
  function Pop(k: Links, l: nat, v: int): (r: Links)
    requires LinksOk(k) && l < LISTS && k.lists[l] != []
    ensures Shape(r) && |r.next| == |k.next|
  {
    var b := k.lists[l][0];
    assert ListOk(k, l);
    Links(k.next[b := v], k.heads[l := After(k.lists[l], 0)], k.lists[l := k.lists[l][1..]], k.owner[b := -1])
  }

  /** Append block `b` to list `l`. */
  function Push(k: Links, l: nat, b: nat): (r: Links)
    requires LinksOk(k) && l < LISTS && b < |k.next|
    ensures Shape(r) && |r.next| == |k.next|
  {
    var list := k.lists[l];
    assert ListOk(k, l);
    var next := k.next[b := -1];
    Links(if list == [] then next else next[list[|list| - 1] := b],
          if list == [] then k.heads[l := b] else k.heads,
          k.lists[l := list + [b]],
          k.owner[b := l])
  }

  /** Put block `b` in place of the i-th block of list `l`. */
  function Swap(k: Links, l: nat, i: nat, b: nat): (r: Links)
    requires LinksOk(k) && l < LISTS && i < |k.lists[l]| && b < |k.next|
    ensures Shape(r) && |r.next| == |k.next|
  {
    var list := k.lists[l];
    assert ListOk(k, l);
    var next := if i == 0 then k.next else k.next[list[i - 1] := b];
    Links(next[b := After(list, i)],
          if i == 0 then k.heads[l := b] else k.heads,
          k.lists[l := list[i := b]],
          k.owner[list[i] := -1][b := l])
  }

  lemma PopOk(k: Links, l: nat, v: int)
    requires LinksOk(k) && l < LISTS && k.lists[l] != []
    ensures LinksOk(Pop(k, l, v))
    ensures ListOk(k, l) && Pop(k, l, v).owner[k.lists[l][0]] == -1
  {
    var r := Pop(k, l, v);
    var list := k.lists[l];
    var b := list[0];
    assert ListOk(k, l) && Chain(k.next, k.heads[l], list);
    forall m | 0 <= m < LISTS
      ensures ListOk(r, m)
    {
      assert ListOk(k, m) && Chain(k.next, k.heads[m], k.lists[m]);
      forall i | 0 <= i < |r.lists[m]|
        ensures r.lists[m][i] != b
      {
        assert m == l ==> r.lists[m][i] == list[i + 1];
      }
    }
    forall c | 0 <= c < |r.owner|
      ensures BlockOwned(r, c)
    {
      assert BlockOwned(k, c);
      if k.owner[c] == l && c != b {
        var i :| 0 <= i < |list| && list[i] == c;
        assert r.lists[l][i - 1] == c;
      }
    }
  }

  lemma PushOk(k: Links, l: nat, b: nat)
    requires LinksOk(k) && l < LISTS && b < |k.next| && k.owner[b] == -1
    ensures LinksOk(Push(k, l, b))
  {
    var r := Push(k, l, b);
    var list := k.lists[l];
    assert ListOk(k, l) && Chain(k.next, k.heads[l], list);
    forall m | 0 <= m < LISTS
      ensures ListOk(r, m)
    {
      assert ListOk(k, m) && Chain(k.next, k.heads[m], k.lists[m]);
      forall i | 0 <= i < |k.lists[m]|
        ensures k.lists[m][i] != b
        ensures m != l ==> list == [] || k.lists[m][i] != list[|list| - 1]
      {
      }
    }
    forall c | 0 <= c < |r.owner|
      ensures BlockOwned(r, c)
    {
      assert BlockOwned(k, c);
      if c == b {
        assert r.lists[l][|list|] == b;
      } else if k.owner[c] == l {
        var i :| 0 <= i < |list| && list[i] == c;
        assert r.lists[l][i] == c;
      }
    }
  }

  lemma ChainSwapped(next: seq<int>, head: int, list: seq<int>, i: nat, b: nat)
    requires Chain(next, head, list) && Distinct(list) && i < |list| && b < |next| && b !in list
    ensures var n := if i == 0 then next else next[list[i - 1] := b];
            Chain(n[b := After(list, i)], if i == 0 then b else head, list[i := b]) && Distinct(list[i := b])
  {
    var n := if i == 0 then next else next[list[i - 1] := b];
    var r, swapped := n[b := After(list, i)], list[i := b];
    forall j | 0 <= j < |list|
      ensures 0 <= swapped[j] < |r| && r[swapped[j]] == After(swapped, j)
    {
      assert j != i ==> next[list[j]] == After(list, j);
    }
  }

  lemma SwapHere(k: Links, l: nat, i: nat, b: nat)
    requires LinksOk(k) && l < LISTS && i < |k.lists[l]| && b < |k.next| && k.owner[b] == -1
    ensures ListOk(Swap(k, l, i, b), l)
  {
    assert ListOk(k, l);
    NotOnList(k, l, b);
    ChainSwapped(k.next, k.heads[l], k.lists[l], i, b);
    hide LinksOk, Chain, Distinct;
    var r, list := Swap(k, l, i, b), k.lists[l];
    forall j | 0 <= j < |list|
      ensures r.owner[r.lists[l][j]] == l
    {
      assert k.owner[list[j]] == l;
    }
  }

  lemma SwapElsewhere(k: Links, l: nat, i: nat, b: nat, m: nat)
    requires LinksOk(k) && l < LISTS && i < |k.lists[l]| && b < |k.next| && k.owner[b] == -1
    requires m < LISTS && m != l
    ensures ListOk(Swap(k, l, i, b), m)
  {
    assert ListOk(k, l) && ListOk(k, m);
    var r, list := Swap(k, l, i, b), k.lists[m];
    forall j | 0 <= j < |list|
      ensures r.next[list[j]] == k.next[list[j]] && r.owner[list[j]] == m
    {
      assert k.owner[list[j]] == m;
      assert k.owner[k.lists[l][i]] == l && (i > 0 ==> k.owner[k.lists[l][i - 1]] == l);
    }
    assert r.lists[m] == list && r.heads[m] == k.heads[m];
    hide Swap, LinksOk;
  }

  lemma SwapOk(k: Links, l: nat, i: nat, b: nat)
    requires LinksOk(k) && l < LISTS && i < |k.lists[l]| && b < |k.next| && k.owner[b] == -1
    ensures LinksOk(Swap(k, l, i, b))
    ensures ListOk(k, l) && Swap(k, l, i, b).owner[k.lists[l][i]] == -1
  {
    var r := Swap(k, l, i, b);
    var list := k.lists[l];
    assert ListOk(k, l) && Chain(k.next, k.heads[l], list);
    forall m | 0 <= m < LISTS
      ensures ListOk(r, m)
    {
      if m == l {
        SwapHere(k, l, i, b);
      } else {
        SwapElsewhere(k, l, i, b, m);
      }
    }
    forall c | 0 <= c < |r.owner|
      ensures BlockOwned(r, c)
    {
      assert BlockOwned(k, c);
      if c == b {
        assert r.lists[l][i] == b;
      } else if k.owner[c] == l && c != list[i] {
        var j :| 0 <= j < |list| && list[j] == c;
        assert r.lists[l][j] == c;
      }
    }
  }

  /** Nothing listed, nobody owned. */
  function Nothing(n: nat): Links {
    Links(seq(n, i => -1), seq(LISTS, l => -1), seq(LISTS, l => []), seq(n, i => -1))
  }

  lemma NothingOk(n: nat)
    ensures LinksOk(Nothing(n))
  {
  }

  /** Empty list `l`; its blocks are owned by nobody. */
  function Cleared(k: Links, l: nat): (r: Links)
    requires LinksOk(k) && l < LISTS
    ensures Shape(r) && |r.next| == |k.next|
  {
    Links(k.next, k.heads[l := -1], k.lists[l := []],
          seq(|k.owner|, b requires 0 <= b < |k.owner| => if k.owner[b] == l then -1 else k.owner[b]))
  }

  lemma ClearedOk(k: Links, l: nat)
    requires LinksOk(k) && l < LISTS
    ensures LinksOk(Cleared(k, l))
  {
    var r := Cleared(k, l);
    forall m | 0 <= m < LISTS
      ensures ListOk(r, m)
    {
      assert ListOk(k, m);
    }
    forall b | 0 <= b < |r.owner|
      ensures BlockOwned(r, b)
    {
      assert BlockOwned(k, b);
    }
  }

  // ---- conservation ----

  function TotalLength(lists: seq<seq<int>>): nat {
    if lists == [] then 0 else |lists[0]| + TotalLength(lists[1..])
  }

  function Elements(list: seq<int>): set<int> { set b | b in list }

  lemma {:induction false} DistinctCardinality(list: seq<int>)
    requires Distinct(list)
    ensures |Elements(list)| == |list|
  {
    if list != [] {
      var init := list[..|list| - 1];
      DistinctCardinality(init);
      assert Elements(list) == Elements(init) + {list[|list| - 1]};
    }
  }

  function Members(k: Links, l: nat): set<int>
    requires Shape(k) && l <= LISTS
  {
    set b | 0 <= b < |k.owner| && l <= k.owner[b] < LISTS
  }

  lemma ElementsAre(k: Links, l: nat)
    requires LinksOk(k) && l < LISTS
    ensures forall b :: b in Elements(k.lists[l]) <==> 0 <= b < |k.owner| && k.owner[b] == l
    ensures |Elements(k.lists[l])| == |k.lists[l]|
  {
    assert ListOk(k, l);
    DistinctCardinality(k.lists[l]);
    forall b
      ensures b in Elements(k.lists[l]) <==> 0 <= b < |k.owner| && k.owner[b] == l
    {
      if 0 <= b < |k.owner| {
        assert BlockOwned(k, b);
      }
    }
  }

  lemma {:induction false} MembersFrom(k: Links, l: nat)
    requires LinksOk(k) && l <= LISTS
    ensures |Members(k, l)| == TotalLength(k.lists[l..])
    decreases LISTS - l
  {
    if l < LISTS {
      ElementsAre(k, l);
      MembersFrom(k, l + 1);
      hide Elements, LinksOk;
      assert Members(k, l) == Elements(k.lists[l]) + Members(k, l + 1);
      assert Elements(k.lists[l]) !! Members(k, l + 1);
      assert k.lists[l..][1..] == k.lists[l + 1..];
    } else {
      assert Members(k, l) == {};
    }
  }

  function Below(n: nat): (r: set<int>)
    ensures |r| == n
    ensures forall b :: b in r <==> 0 <= b < n
  {
    if n == 0 then {} else Below(n - 1) + {n - 1}
  }

  /** While another list holds a block, a list is shorter than the device. */
  lemma ListRoom(k: Links, l: nat, m: nat)
    requires LinksOk(k) && l < LISTS && m < LISTS && l != m && k.lists[m] != []
    ensures |k.lists[l]| < |k.next|
  {
    assert ListOk(k, l) && ListOk(k, m);
    DistinctCardinality(k.lists[l]);
    assert Elements(k.lists[l]) <= Below(|k.next|) - {k.lists[m][0]};
    Cardinality(Elements(k.lists[l]), Below(|k.next|) - {k.lists[m][0]});
  }

  lemma ListBound(k: Links, l: nat)
    requires LinksOk(k) && l < LISTS
    ensures |k.lists[l]| <= |k.next|
  {
    assert ListOk(k, l);
    DistinctCardinality(k.lists[l]);
    Cardinality(Elements(k.lists[l]), Below(|k.next|));
  }

  lemma {:induction false} Cardinality<T>(a: set<T>, b: set<T>)
    requires a <= b
    ensures |a| <= |b|
  {
    if a != {} {
      var x :| x in a;
      Cardinality(a - {x}, b - {x});
    }
  }

  /** No block is lost or counted twice: the list lengths add up to the number of blocks. */
  lemma Conservation(k: Links)
    requires LinksOk(k) && AllOwned(k)
    ensures TotalLength(k.lists) == |k.next|
  {
    MembersFrom(k, 0);
    assert k.lists[0..] == k.lists;
    forall b | 0 <= b < |k.owner|
      ensures 0 <= k.owner[b] < LISTS
    {
      assert BlockOwned(k, b);
    }
    assert Members(k, 0) == Below(|k.owner|);
  }

  /** Each block sits at exactly one position of exactly one list. */
  lemma ExactlyOnce(k: Links, b: nat) returns (l: nat, i: nat)
    requires LinksOk(k) && AllOwned(k) && b < |k.next|
    ensures l < LISTS && i < |k.lists[l]| && k.lists[l][i] == b
    ensures forall m, j :: 0 <= m < LISTS && 0 <= j < |k.lists[m]| && k.lists[m][j] == b ==> m == l && j == i
  {
    assert BlockOwned(k, b);
    l := k.owner[b];
    i :| 0 <= i < |k.lists[l]| && k.lists[l][i] == b;
    forall m, j | 0 <= m < LISTS && 0 <= j < |k.lists[m]| && k.lists[m][j] == b
      ensures m == l && j == i
    {
      assert ListOk(k, m) && ListOk(k, l);
    }
  }
}
