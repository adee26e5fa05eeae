/** The intrusive circular doubly linked list. */
module IntrusiveList {

  class ListHead {
    var next: ListHead?
    var prev: ListHead?

    constructor ()
      ensures Ring(this, [])
    {
      next, prev := this, this;
    }
  }

  /** Once round the ring: from the head through its nodes back to the head. */
  ghost function Lap(head: ListHead, nodes: seq<ListHead>): seq<ListHead> {
    [head] + nodes + [head]
  }

  /** Distinct nodes, none of them the head. */
  ghost predicate Members(head: ListHead, nodes: seq<ListHead>) {
    head !in nodes && forall i, j | 0 <= i < j < |nodes| :: nodes[i] != nodes[j]
  }

  /** `nodes` are the members of the ring of `head`, in order, and the links agree both ways. */
  ghost predicate Ring(head: ListHead, nodes: seq<ListHead>)
    reads head, nodes
  {
    && Members(head, nodes)
    && var lap := Lap(head, nodes);
      forall i, j | 0 <= i && j == i + 1 && j < |lap| :: lap[i].next == lap[j] && lap[j].prev == lap[i]
  }

  // ------------------------------------------------------------ what a ring is

  /** The links determine the members: a head has one node sequence. */
  lemma {:induction false} RingIsUnique(head: ListHead, a: seq<ListHead>, b: seq<ListHead>)
    requires Ring(head, a) && Ring(head, b)
    ensures a == b
  {
    var n := if |a| <= |b| then |a| else |b|;
    CommonPrefix(head, a, b, n);
    assert Lap(head, a)[n] == Lap(head, b)[n] by {
      assert n > 0 ==> a[..n][n - 1] == b[..n][n - 1];
    }
    assert Lap(head, a)[n + 1] == Lap(head, b)[n + 1];
    assert a[..|a|] == a && b[..|b|] == b;
  }

  lemma {:induction false} CommonPrefix(head: ListHead, a: seq<ListHead>, b: seq<ListHead>, n: nat)
    requires Ring(head, a) && Ring(head, b) && n <= |a| && n <= |b|
    ensures a[..n] == b[..n]
  {
    if n > 0 {
      CommonPrefix(head, a, b, n - 1);
      assert Lap(head, a)[n - 1] == Lap(head, b)[n - 1] by {
        if n > 1 {
          assert a[..n - 1][n - 2] == b[..n - 1][n - 2];
        }
      }
      assert a[n - 1] == Lap(head, a)[n] == Lap(head, b)[n] == b[n - 1];
    }
  }

  /** A ring has no distinguished member: seen from its k-th node it is a ring too. */
  lemma RingFrom(head: ListHead, nodes: seq<ListHead>, k: nat)
    requires Ring(head, nodes) && k < |nodes|
    ensures Ring(nodes[k], nodes[k + 1..] + [head] + nodes[..k])
  {
    var turned := nodes[k + 1..] + [head] + nodes[..k];
    var lap, lap' := Lap(head, nodes), Lap(nodes[k], turned);
    var n := |nodes| - k;
    forall i | 0 <= i <= |turned|
      ensures lap'[i].next == lap'[i + 1] && lap'[i + 1].prev == lap'[i]
    {
      var j := if i < n then k + 1 + i else i - n;
      assert lap'[i] == lap[j] && lap'[i + 1] == lap[j + 1];
      assert lap[j].next == lap[j + 1] && lap[j + 1].prev == lap[j];
    }
  }

  /** Two rings with a node in common are the same ring. */
  lemma RingsAreDisjointOrSame(g: ListHead, a: seq<ListHead>, h: ListHead, b: seq<ListHead>, x: ListHead)
    requires Ring(g, a) && Ring(h, b)
    requires x in [g] + a && x in [h] + b
    ensures forall y :: y in [g] + a <==> y in [h] + b
  {
    var a' := SeenFrom(g, a, x);
    var b' := SeenFrom(h, b, x);
    RingIsUnique(x, a', b');
    forall y ensures y in [g] + a <==> y in [h] + b {
      assert y in [g] + a <==> y in [x] + a';
      assert y in [h] + b <==> y in [x] + b';
    }
  }

  lemma SeenFrom(head: ListHead, nodes: seq<ListHead>, x: ListHead) returns (others: seq<ListHead>)
    requires Ring(head, nodes) && x in [head] + nodes
    ensures Ring(x, others)
    ensures forall y :: y in [head] + nodes <==> y in [x] + others
  {
    if x == head {
      others := nodes;
    } else {
      var k :| 0 <= k < |nodes| && nodes[k] == x;
      RingFrom(head, nodes, k);
      others := nodes[k + 1..] + [head] + nodes[..k];
      assert nodes == nodes[..k] + [x] + nodes[k + 1..];
    }
  }

  // ------------------------------------------------------------ operations

  /** INIT_LIST_HEAD, also on a node that was linked before. */
  method InitListHead(list: ListHead)
    modifies list
    ensures Ring(list, [])
  {
    list.next := list;
    list.prev := list;
  }

  /** __list_add: `prev` and `next` are neighbours on the lap, at positions k and k + 1. */
  method ListAddBetween(node: ListHead, prev: ListHead, next: ListHead,
                        ghost head: ListHead, ghost nodes: seq<ListHead>, ghost k: nat)
    requires Ring(head, nodes) && node !in [head] + nodes
    requires k <= |nodes| && prev == Lap(head, nodes)[k] && next == Lap(head, nodes)[k + 1]
    modifies node, prev, next
    ensures Ring(head, nodes[..k] + [node] + nodes[k..])
  {
    ghost var lap, lap' := Lap(head, nodes), Lap(head, nodes[..k] + [node] + nodes[k..]);
    next.prev := node;
    node.next := next;
    node.prev := prev;
    prev.next := node;
    assert lap' == lap[..k + 1] + [node] + lap[k + 1..];
    forall i | 0 <= i < |lap'| - 1
      ensures lap'[i].next == lap'[i + 1] && lap'[i + 1].prev == lap'[i]
    {
      if i < k {
        assert lap'[i] == lap[i] && lap'[i + 1] == lap[i + 1];
      } else if i > k + 1 {
        assert lap'[i] == lap[i - 1] && lap'[i + 1] == lap[i];
      }
    }
  }

  /** list_add: the new node becomes the first. */
  method ListAdd(node: ListHead, head: ListHead, ghost nodes: seq<ListHead>)
    requires Ring(head, nodes) && node !in [head] + nodes
    modifies node, head, Lap(head, nodes)[1]
    ensures Ring(head, [node] + nodes)
  {
    assert Lap(head, nodes)[0].next == Lap(head, nodes)[1];
    assert nodes[..0] + [node] + nodes[0..] == [node] + nodes;
    ListAddBetween(node, head, head.next, head, nodes, 0);
  }

  /** list_add_tail: the new node becomes the last. */
  method ListAddTail(node: ListHead, head: ListHead, ghost nodes: seq<ListHead>)
    requires Ring(head, nodes) && node !in [head] + nodes
    modifies node, head, Lap(head, nodes)[|nodes|]
    ensures Ring(head, nodes + [node])
  {
    assert Lap(head, nodes)[|nodes| + 1].prev == Lap(head, nodes)[|nodes|];
    assert nodes[..|nodes|] + [node] + nodes[|nodes|..] == nodes + [node];
    ListAddBetween(node, head.prev, head, head, nodes, |nodes|);
  }

  /** list_empty. */
  method ListEmpty(head: ListHead, ghost nodes: seq<ListHead>) returns (empty: bool)
    requires Ring(head, nodes)
    ensures empty <==> nodes == []
  {
    assert Lap(head, nodes)[0].next == Lap(head, nodes)[1];
    empty := head.next == head;
  }

  /** list_del of the k-th member: that node alone leaves, and its links are cleared. */
  method ListDel(entry: ListHead, ghost head: ListHead, ghost nodes: seq<ListHead>, ghost k: nat)
    requires Ring(head, nodes) && k < |nodes| && entry == nodes[k]
    modifies entry, Lap(head, nodes)[k], Lap(head, nodes)[k + 2]
    ensures Ring(head, nodes[..k] + nodes[k + 1..])
    ensures entry.next == null && entry.prev == null
  {
    ghost var lap, lap' := Lap(head, nodes), Lap(head, nodes[..k] + nodes[k + 1..]);
    assert lap[k + 1] == entry && entry.next == lap[k + 2] && entry.prev == lap[k];
    var prev, next := entry.prev, entry.next;
    next.prev := prev;
    prev.next := next;
    entry.next := null;
    entry.prev := null;
    assert lap' == lap[..k + 1] + lap[k + 2..];
    forall i | 0 <= i < |lap'| - 1
      ensures lap'[i].next == lap'[i + 1] && lap'[i + 1].prev == lap'[i]
    {
      if i < k {
        assert lap'[i] == lap[i] && lap'[i + 1] == lap[i + 1];
      } else if i > k {
        assert lap'[i] == lap[i + 1] && lap'[i + 1] == lap[i + 2];
      }
    }
  }

  // ------------------------------------------------------------ several operations

  lemma OtherRingIsApart(head: ListHead, nodes: seq<ListHead>, other: ListHead, others: seq<ListHead>)
    requires Ring(head, nodes) && Ring(other, others) && other !in [head] + nodes
    ensures forall y :: y in [head] + nodes ==> y !in [other] + others
  {
    forall y | y in [head] + nodes ensures y !in [other] + others {
      if y in [other] + others {
        RingsAreDisjointOrSame(head, nodes, other, others, y);
      }
    }
  }

  /** list_add_tail beside another ring, which it leaves alone. */
  method ListAddTailApart(node: ListHead, head: ListHead, ghost nodes: seq<ListHead>,
                          ghost other: ListHead, ghost others: seq<ListHead>)
    requires Ring(head, nodes) && node !in [head] + nodes
    requires Ring(other, others) && node !in [other] + others && other !in [head] + nodes
    modifies node, head, nodes
    ensures Ring(head, nodes + [node]) && Ring(other, others)
  {
    OtherRingIsApart(head, nodes, other, others);
    assert Lap(head, nodes)[|nodes|] in [head] + nodes;
    ListAddTail(node, head, nodes);
    assert forall x | x in [other] + others :: x.next == old(x.next) && x.prev == old(x.prev);
    assert forall i | 0 <= i < |Lap(other, others)| :: Lap(other, others)[i] in [other] + others;
  }

  /** list_del writes to the ring's own nodes only. */
  method ListDelMember(entry: ListHead, ghost head: ListHead, ghost nodes: seq<ListHead>, ghost k: nat)
    requires Ring(head, nodes) && k < |nodes| && entry == nodes[k]
    modifies head, nodes
    ensures Ring(head, nodes[..k] + nodes[k + 1..])
    ensures entry.next == null && entry.prev == null
  {
    assert Lap(head, nodes)[k] in [head] + nodes && Lap(head, nodes)[k + 2] in [head] + nodes;
    ListDel(entry, head, nodes, k);
  }

  /** list_del beside another ring, which it leaves alone. */
  method ListDelApart(entry: ListHead, ghost head: ListHead, ghost nodes: seq<ListHead>, ghost k: nat,
                      ghost other: ListHead, ghost others: seq<ListHead>)
    requires Ring(head, nodes) && k < |nodes| && entry == nodes[k]
    requires Ring(other, others) && other !in [head] + nodes
    modifies head, nodes
    ensures Ring(head, nodes[..k] + nodes[k + 1..]) && Ring(other, others)
    ensures entry !in [other] + others
  {
    OtherRingIsApart(head, nodes, other, others);
    assert entry in [head] + nodes;
    ListDelMember(entry, head, nodes, k);
    assert forall x | x in [other] + others :: x.next == old(x.next) && x.prev == old(x.prev);
    assert forall i | 0 <= i < |Lap(other, others)| :: Lap(other, others)[i] in [other] + others;
  }

  /** Deleting what was just added restores the ring. */
  method AddThenDelete(node: ListHead, head: ListHead, ghost nodes: seq<ListHead>,
                       ghost other: ListHead, ghost others: seq<ListHead>)
    requires Ring(head, nodes) && node !in [head] + nodes
    requires Ring(other, others) && node !in [other] + others && other !in [head] + nodes
    modifies node, head, nodes
    ensures Ring(head, nodes) && Ring(other, others)
  {
    ListAddTailApart(node, head, nodes, other, others);
    ghost var longer := nodes + [node];
    assert longer[..|nodes|] + longer[|nodes| + 1..] == nodes;
    ListDelApart(node, head, longer, |nodes|, other, others);
  }

  /** A member can move to the end of another ring; both stay well linked. */
  method MoveToOther(entry: ListHead, ghost head: ListHead, ghost nodes: seq<ListHead>, ghost k: nat,
                     other: ListHead, ghost others: seq<ListHead>)
    requires Ring(head, nodes) && k < |nodes| && entry == nodes[k]
    requires Ring(other, others) && other !in [head] + nodes
    modifies head, nodes, other, others
    ensures Ring(head, nodes[..k] + nodes[k + 1..])
    ensures Ring(other, others + [entry])
  {
    OtherRingIsApart(head, nodes, other, others);
    ghost var rest := nodes[..k] + nodes[k + 1..];
    assert forall x | x in [head] + rest :: x in [head] + nodes && x != entry;
    ListDelApart(entry, head, nodes, k, other, others);
    ListAddTailApart(entry, other, others, head, rest);
  }

  ghost function Kept(nodes: seq<ListHead>, drop: set<ListHead>): (r: seq<ListHead>) {
    if nodes == [] then []
    else Kept(nodes[..|nodes| - 1], drop)
         + if nodes[|nodes| - 1] in drop then [] else [nodes[|nodes| - 1]]
  }

  /** `kept` are the survivors of the visited nodes. */
  ghost predicate KeptSoFar(kept: seq<ListHead>, done: seq<ListHead>, drop: set<ListHead>) {
    kept == Kept(done, drop) && forall j | 0 <= j < |kept| :: kept[j] in done && kept[j] !in drop
  }

  ghost function Extend(kept: seq<ListHead>, x: ListHead, drop: set<ListHead>): seq<ListHead> {
    if x in drop then kept else kept + [x]
  }

  ghost predicate Within(nodes: seq<ListHead>, own: set<ListHead>) {
    forall j | 0 <= j < |nodes| :: nodes[j] in own
  }

  lemma KeptThen(kept: seq<ListHead>, done: seq<ListHead>, x: ListHead, drop: set<ListHead>)
    requires KeptSoFar(kept, done, drop)
    ensures KeptSoFar(Extend(kept, x, drop), done + [x], drop)
  {
    var more := done + [x];
    assert more[..|done|] == done;
    forall j | 0 <= j < |kept| ensures kept[j] in more {
      var m :| 0 <= m < |done| && done[m] == kept[j];
      assert more[m] == kept[j];
    }
    assert more[|done|] == x;
  }

  lemma DroppedAreApart(head: ListHead, kept: seq<ListHead>, done: seq<ListHead>,
                        rest: seq<ListHead>, drop: set<ListHead>)
    requires Members(head, done + rest) && KeptSoFar(kept, done, drop)
    ensures Apart(done, drop, [head] + (kept + rest))
  {
    forall j | 0 <= j < |done| && done[j] in drop ensures done[j] !in [head] + (kept + rest) {
      assert (done + rest)[j] == done[j];
      forall m | 0 <= m < |rest| ensures rest[m] != done[j] {
        assert (done + rest)[|done| + m] == rest[m];
      }
    }
  }

  lemma VisitNext(head: ListHead, kept: seq<ListHead>, done: seq<ListHead>, rest: seq<ListHead>, drop: set<ListHead>)
    requires rest != [] && Members(head, done + rest) && KeptSoFar(kept, done, drop)
    ensures done + rest == (done + [rest[0]]) + rest[1..]
    ensures Apart(done, drop, [head] + (kept + rest))
    ensures KeptSoFar(Extend(kept, rest[0], drop), done + [rest[0]], drop)
  {
    hide *;
    KeptThen(kept, done, rest[0], drop);
    DroppedAreApart(head, kept, done, rest, drop);
  }

  ghost predicate Detached(nodes: seq<ListHead>, drop: set<ListHead>)
    reads nodes
  {
    forall j | 0 <= j < |nodes| :: nodes[j] in drop ==> nodes[j].next == null && nodes[j].prev == null
  }

  /** None of the dropped nodes is in the ring. */
  ghost predicate Apart(dropped: seq<ListHead>, drop: set<ListHead>, ring: seq<ListHead>) {
    forall j | 0 <= j < |dropped| :: dropped[j] in drop ==> dropped[j] !in ring
  }

  /** The loop body of ForEachSafe, between the nodes kept so far and the rest. */
  method Visit(pos: ListHead, drop: set<ListHead>, ghost own: set<ListHead>, ghost head: ListHead,
               ghost kept: seq<ListHead>, ghost rest: seq<ListHead>, ghost earlier: seq<ListHead>)
    requires rest != [] && pos == rest[0] && Ring(head, kept + rest)
    requires head in own && Within(kept, own) && Within(rest, own)
    requires Detached(earlier, drop) && Apart(earlier, drop, [head] + (kept + rest))
    modifies own
    ensures Ring(head, Extend(kept, pos, drop) + rest[1..])
    ensures Detached(earlier + [pos], drop)
  {
    ghost var ring := kept + rest;
    if pos in drop {
      assert ring[..|kept|] + ring[|kept| + 1..] == kept + rest[1..];
      ListDelMember(pos, head, ring, |kept|);
    } else {
      assert (kept + [pos]) + rest[1..] == ring;
    }
  }

  /**
   list_for_each_safe over a body that deletes the current node when it is in `drop`:
   each original node is visited once and in order, and exactly the others stay linked.
   */
  method ForEachSafe(head: ListHead, drop: set<ListHead>, ghost nodes: seq<ListHead>, ghost own: set<ListHead>)
    returns (visited: seq<ListHead>)
    requires Ring(head, nodes) && head in own && Within(nodes, own)
    modifies own
    ensures visited == nodes
    ensures Ring(head, Kept(nodes, drop)) && Detached(nodes, drop)
  {
    hide Ring, Lap, Members, Kept, KeptSoFar, Detached, Apart, Head, Within, Extend;
    visited := [];
    ghost var kept: seq<ListHead>, done: seq<ListHead>, rest := [], [], nodes;
    assert kept + rest == nodes && done + rest == nodes;
    RingMembers(head, nodes);
    NothingVisited(drop, own);
    Neighbours(head, kept, rest);
    HeadOfRest(head, done, rest);
    var pos := head.next;
    var n := pos.next;
    while pos != head
      invariant done + rest == nodes
      invariant pos == Head(rest, head)
      invariant rest != [] ==> n == Head(rest[1..], head)
      invariant visited == done && KeptSoFar(kept, done, drop)
      invariant Within(kept, own) && Within(rest, own)
      invariant Ring(head, kept + rest) && Detached(done, drop)
      decreases |rest|
    {
      HeadOfRest(head, done, rest);
      VisitNext(head, kept, done, rest, drop);
      StillWithin(kept, rest, drop, own);
      visited := visited + [pos];
      Visit(pos, drop, own, head, kept, rest, done);
      kept, done, rest := Extend(kept, pos, drop), done + [pos], rest[1..];
      pos := n;
      Neighbours(head, kept, rest);
      HeadOfRest(head, done, rest);
      n := pos.next;
    }
    HeadOfRest(head, done, rest);
    assert done + rest == done && kept + rest == kept;
    AllVisited(kept, nodes, drop);
  }

  lemma RingMembers(head: ListHead, nodes: seq<ListHead>)
    requires Ring(head, nodes)
    ensures Members(head, nodes)
  {
  }

  lemma NothingVisited(drop: set<ListHead>, own: set<ListHead>)
    ensures KeptSoFar([], [], drop) && Detached([], drop) && Within([], own)
  {
  }

  lemma StillWithin(kept: seq<ListHead>, rest: seq<ListHead>, drop: set<ListHead>, own: set<ListHead>)
    requires rest != [] && Within(kept, own) && Within(rest, own)
    ensures Within(Extend(kept, rest[0], drop), own) && Within(rest[1..], own)
  {
  }

  lemma AllVisited(kept: seq<ListHead>, nodes: seq<ListHead>, drop: set<ListHead>)
    requires KeptSoFar(kept, nodes, drop)
    ensures kept == Kept(nodes, drop)
  {
  }

  /** The cursor is back at the head exactly when nothing is left. */
  lemma HeadOfRest(head: ListHead, done: seq<ListHead>, rest: seq<ListHead>)
    requires Members(head, done + rest)
    ensures Head(rest, head) == if rest == [] then head else rest[0]
    ensures rest != [] ==> rest[0] != head
  {
    if rest != [] {
      assert (done + rest)[|done|] == rest[0];
    }
  }

  ghost function Head(nodes: seq<ListHead>, head: ListHead): ListHead {
    if nodes == [] then head else nodes[0]
  }

  /** The successor of the head, and of the first node after the kept ones. */
  lemma Neighbours(head: ListHead, kept: seq<ListHead>, rest: seq<ListHead>)
    requires Ring(head, kept + rest)
    ensures kept == [] ==> head.next == Head(rest, head)
    ensures Head(rest, head).next != null
    ensures rest != [] ==> rest[0].next == Head(rest[1..], head)
  {
    var lap, k := Lap(head, kept + rest), |kept|;
    assert lap[0].next == lap[1];
    if rest != [] {
      assert lap[k + 1] == rest[0] && lap[k + 1].next == lap[k + 2];
    }
  }
}
