/**
 The discovery node's storage-node overlay: each joining storage node is told up to three
 earlier ones, drawn from a random permutation, and links to them.
 */
module Overlay {
  import opened Go
  import opened Dag

  /** The neighbour lists handed out so far: links[n] is Gn_order of node n. */
  type Links = map<int, seq<int>>

  /** Distinct earlier nodes: at most 3, and at least 1 for node 2 and 2 from node 3 on; none for node 1. */
  ghost predicate ListOk(n: int, order: seq<int>) {
    && |order| <= 3 && (n >= 2 ==> |order| >= 1) && (n >= 3 ==> |order| >= 2) && NoRepeats(order)
    && forall k :: k in order ==> 1 <= k < n
  }

  ghost predicate Earlier(n: int, order: seq<int>) {
    forall k :: 0 <= k < |order| ==> 1 <= order[k] < n
  }

  lemma {:induction false} EarlierListOk(n: int, order: seq<int>)
    requires Earlier(n, order) && |order| <= 3 && NoRepeats(order)
    requires (n >= 2 ==> |order| >= 1) && (n >= 3 ==> |order| >= 2)
    ensures ListOk(n, order)
  {}

  ghost predicate LinksOk(links: Links, total: nat) {
    && (forall n :: n in links <==> 1 <= n <= total)
    && forall n :: n in links ==> ListOk(n, links[n])
  }

  /** The answer to a storage node: Gn, Gn_order and its own number. Adj and Aux stay empty. */
  datatype NeighboursSn<A> = NeighboursSn(gn: map<int, A>, gnOrder: seq<int>, ownNodeno: int)

  class DiscoveryNode<A(==)> {
    var totalSn: nat
    var snCluster: map<int, A>

    /** What every node was told; the source keeps no record of it. */
    ghost var links: Links

    ghost predicate Valid()
      reads this
    {
      && (forall n :: n in snCluster <==> 1 <= n <= totalSn)
      && LinksOk(links, totalSn)
    }

    constructor ()
      ensures Valid() && totalSn == 0
    {
      totalSn, snCluster, links := 0, map[], map[];
    }

    /** A storage node's request: count it, then chord_harrary. */
    method ChordHarrary(socket: A) returns (data: NeighboursSn<A>)
      requires Valid()
      modifies this
      ensures Valid() && totalSn == old(totalSn) + 1
      ensures snCluster == old(snCluster)[totalSn := socket]
      ensures data.ownNodeno == totalSn && ListOk(totalSn, data.gnOrder)
      ensures (if totalSn < 3 then totalSn - 1 else 2) <= |data.gnOrder| <= 3
      ensures data.gn.Keys == Members(data.gnOrder)
      ensures forall k :: k in data.gn ==> k in old(snCluster) && data.gn[k] == old(snCluster)[k]
      ensures links == old(links)[totalSn := data.gnOrder]
    {
      totalSn := totalSn + 1;
      var node := totalSn;
      snCluster := snCluster[node := socket];
      var r := RandPerm(totalSn);
      var gn: map<int, A> := map[];
      var gnOrder: seq<int> := [];
      var i := 0;
      while i < 3 && i < totalSn
        invariant 0 <= i <= 3 && i <= totalSn
        invariant |gnOrder| <= i && NoRepeats(gnOrder) && gn.Keys == Members(gnOrder)
        invariant Earlier(node, gnOrder)
        invariant forall j :: i <= j < totalSn ==> r[j] !in gnOrder
        invariant |gnOrder| == i || (|gnOrder| == i - 1 && forall j :: i <= j < totalSn ==> r[j] != 0)
        invariant forall k :: k in gn ==> k in old(snCluster) && gn[k] == old(snCluster)[k]
      {
        if r[i] == node {
          i := i + 1;
          continue;
        }
        if r[i] in snCluster {
          gn := gn[r[i] := snCluster[r[i]]];
          gnOrder := gnOrder + [r[i]];
        }
        i := i + 1;
      }
      EarlierListOk(node, gnOrder);
      links := links[node := gnOrder];
      data := NeighboursSn(gn, gnOrder, node);
    }
  }

  function Members(s: seq<int>): set<int> {
    set k | k in s
  }

  // ----- the overlay is connected

  /** One of a and b was told about the other. */
  predicate Linked(links: Links, a: int, b: int) {
    (a in links && b in links[a]) || (b in links && a in links[b])
  }

  /** There is a walk of n links from a to b. */
  ghost predicate Walk(links: Links, a: int, b: int, n: nat)
    decreases n
  {
    if n == 0 then a == b else exists c :: Linked(links, a, c) && Walk(links, c, b, n - 1)
  }

  ghost predicate Connected(links: Links, a: int, b: int) {
    exists n: nat :: Walk(links, a, b, n)
  }

  lemma {:induction false} WalkTrans(links: Links, a: int, b: int, c: int, m: nat, n: nat)
    requires Walk(links, a, b, m) && Walk(links, b, c, n)
    ensures Walk(links, a, c, m + n)
    decreases m
  {
    if m > 0 {
      var d :| Linked(links, a, d) && Walk(links, d, b, m - 1);
      WalkTrans(links, d, b, c, m - 1, n);
    }
  }

  lemma {:induction false} WalkBack(links: Links, a: int, b: int, n: nat)
    requires Walk(links, a, b, n)
    ensures Walk(links, b, a, n)
    decreases n
  {
    if n > 0 {
      var c :| Linked(links, a, c) && Walk(links, c, b, n - 1);
      WalkBack(links, c, b, n - 1);
      assert Linked(links, c, a) && Walk(links, a, a, 0);
      assert Walk(links, c, a, 1);
      WalkTrans(links, b, c, a, n - 1, 1);
    }
  }

  lemma {:induction false} ToFirst(links: Links, total: nat, a: int) returns (n: nat)
    requires LinksOk(links, total) && 1 <= a <= total
    ensures Walk(links, a, 1, n)
    decreases a
  {
    if a == 1 {
      n := 0;
    } else {
      assert ListOk(a, links[a]);
      var b := links[a][0];
      assert b in links[a] && Linked(links, a, b);
      var m := ToFirst(links, total, b);
      n := m + 1;
    }
  }

  /** However the permutations fall, any two storage nodes are connected. */
  lemma {:induction false} OverlayConnected(links: Links, total: nat, a: int, b: int)
    requires LinksOk(links, total) && 1 <= a <= total && 1 <= b <= total
    ensures Connected(links, a, b)
  {
    var m := ToFirst(links, total, a);
    var n := ToFirst(links, total, b);
    WalkBack(links, b, 1, n);
    WalkTrans(links, a, 1, b, m, n);
  }
}
