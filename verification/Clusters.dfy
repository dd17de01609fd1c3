/**
 The discovery node's gateway clusters: a joining gateway goes into a random cluster, and a
 full cluster of 16 is first split in two with its slots renumbered.
 */
module Clusters {
  import opened Go

  const CLUSTER_SIZE: nat := 16

  /** The address of a gateway. */
  type Address(==, 0, !new)

  /** A uuid. */
  type Token(==, 0, !new)

  /** A Go map keyed by slot number. */
  type Slots<T> = map<int, T>

  /** The keys are exactly 0 to n - 1. */
  ghost predicate Numbered<T>(m: Slots<T>, n: nat) {
    |m| == n && forall k :: k in m <==> 0 <= k < n
  }

  function Drop<T>(m: Slots<T>, k: int): Slots<T> {
    map i | i in m && i != k :: m[i]
  }

  lemma {:induction false} DropSize<T>(m: Slots<T>, k: int)
    requires k in m
    ensures |Drop(m, k)| == |m| - 1
  {
    assert Drop(m, k).Keys == m.Keys - {k};
  }

  lemma {:induction false} PutSize<T>(m: Slots<T>, k: int, v: T)
    requires k !in m
    ensures |m[k := v]| == |m| + 1
  {
    assert m[k := v].Keys == m.Keys + {k};
  }

  lemma {:induction false} PutNumbered<T>(m: Slots<T>, n: nat, v: T)
    requires Numbered(m, n)
    ensures Numbered(m[n := v], n + 1)
  {
    PutSize(m, n, v);
  }

  lemma {:induction false} HasMemberAtAll(s: set<int>)
    ensures s == {} || exists k :: k in s
  {
    if forall k :: k !in s {
      assert s == {};
    }
  }

  ghost function Pick(s: set<int>): (k: int)
    requires |s| > 0
    ensures k in s
  {
    HasMemberAtAll(s);
    var k :| k in s;
    k
  }

  /** The addresses in a map, with multiplicity. */
  ghost function Values(m: Slots<Address>): multiset<Address>
    decreases |m|
  {
    if |m.Keys| == 0 then multiset{}
    else
      var k := Pick(m.Keys);
      DropSize(m, k);
      Values(Drop(m, k)) + multiset{m[k]}
  }

  lemma {:induction false} DropsCommute(m: Slots<Address>, j: int, k: int)
    ensures Drop(Drop(m, j), k) == Drop(Drop(m, k), j)
  {}

  lemma {:induction false} ValuesDrop(m: Slots<Address>, k: int)
    requires k in m
    ensures Values(m) == Values(Drop(m, k)) + multiset{m[k]} && |Drop(m, k)| == |m| - 1
    decreases |m|
  {
    DropSize(m, k);
    var j := Pick(m.Keys);
    DropSize(m, j);
    if j != k {
      ValuesDrop(Drop(m, j), k);
      ValuesDrop(Drop(m, k), j);
      DropsCommute(m, j, k);
    }
  }

  lemma {:induction false} ValuesPut(m: Slots<Address>, k: int, v: Address)
    requires k !in m
    ensures Values(m[k := v]) == Values(m) + multiset{v}
  {
    var m' := m[k := v];
    assert Drop(m', k).Keys == m.Keys && forall i :: i in m ==> Drop(m', k)[i] == m[i];
    assert Drop(m', k) == m;
    ValuesDrop(m', k);
  }

  lemma {:induction false} ValuesSize(m: Slots<Address>)
    ensures |Values(m)| == |m|
    decreases |m|
  {
    if |m.Keys| > 0 {
      var k := Pick(m.Keys);
      DropSize(m, k);
      ValuesSize(Drop(m, k));
    }
  }

  /** The addresses in the first n clusters. */
  ghost function FirstValues(cs: seq<Slots<Address>>, n: nat): multiset<Address>
    requires n <= |cs|
    decreases n
  {
    if n == 0 then multiset{} else FirstValues(cs, n - 1) + Values(cs[n - 1])
  }

  ghost function AllValues(cs: seq<Slots<Address>>): multiset<Address> {
    FirstValues(cs, |cs|)
  }

  lemma {:induction false} Exchange(x: multiset<Address>, y: multiset<Address>, last: multiset<Address>,
                                    v: multiset<Address>, w: multiset<Address>)
    requires y + v == x + w
    ensures (y + last) + v == (x + last) + w
  {
    assert (y + last) + v == (y + v) + last;
    assert (x + last) + w == (x + w) + last;
  }

  lemma {:induction false} Swap(x: multiset<Address>, v: multiset<Address>, w: multiset<Address>)
    ensures (x + v) + w == (x + w) + v
  {}

  lemma {:induction false} FirstValuesBefore(cs: seq<Slots<Address>>, c: nat, m: Slots<Address>, n: nat)
    requires n <= c < |cs|
    ensures FirstValues(cs[c := m], n) == FirstValues(cs, n)
    decreases n
  {
    if n > 0 {
      FirstValuesBefore(cs, c, m, n - 1);
    }
  }

  lemma {:induction false} FirstValuesReplace(cs: seq<Slots<Address>>, c: nat, m: Slots<Address>, n: nat)
    requires c < n <= |cs|
    ensures FirstValues(cs[c := m], n) + Values(cs[c]) == FirstValues(cs, n) + Values(m)
    decreases n
  {
    var cs' := cs[c := m];
    if n - 1 == c {
      FirstValuesBefore(cs, c, m, c);
      Swap(FirstValues(cs, c), Values(m), Values(cs[c]));
    } else {
      FirstValuesReplace(cs, c, m, n - 1);
      assert cs'[n - 1] == cs[n - 1];
      Exchange(FirstValues(cs, n - 1), FirstValues(cs', n - 1), Values(cs[n - 1]), Values(cs[c]), Values(m));
    }
  }

  lemma {:induction false} FirstValuesAppend(cs: seq<Slots<Address>>, m: Slots<Address>, n: nat)
    requires n <= |cs|
    ensures FirstValues(cs + [m], n) == FirstValues(cs, n)
    decreases n
  {
    if n > 0 {
      FirstValuesAppend(cs, m, n - 1);
    }
  }

  /** Replacing one cluster's map replaces its addresses in the total. */
  lemma {:induction false} AllValuesReplace(cs: seq<Slots<Address>>, c: nat, m: Slots<Address>)
    requires c < |cs|
    ensures AllValues(cs[c := m]) + Values(cs[c]) == AllValues(cs) + Values(m)
  {
    FirstValuesReplace(cs, c, m, |cs|);
  }

  lemma {:induction false} AllValuesAppend(cs: seq<Slots<Address>>, m: Slots<Address>)
    ensures AllValues(cs + [m]) == AllValues(cs) + Values(m)
  {
    FirstValuesAppend(cs, m, |cs|);
  }

  /** One newcomer in one cluster is one newcomer in the total. */
  lemma {:induction false} AllValuesJoin(cs: seq<Slots<Address>>, c: nat, slot: int, v: Address)
    requires c < |cs| && slot !in cs[c]
    ensures AllValues(cs[c := cs[c][slot := v]]) == AllValues(cs) + multiset{v}
  {
    var m := cs[c][slot := v];
    ValuesPut(cs[c], slot, v);
    AllValuesReplace(cs, c, m);
    assert AllValues(cs) + Values(m) == (AllValues(cs) + multiset{v}) + Values(cs[c]);
    Cancel(AllValues(cs[c := m]), AllValues(cs) + multiset{v}, Values(cs[c]));
  }

  lemma {:induction false} Cancel(x: multiset<Address>, y: multiset<Address>, z: multiset<Address>)
    requires x + z == y + z
    ensures x == y
  {
    assert x == (x + z) - z && y == (y + z) - z;
  }

  /** A split only redistributes. */
  lemma {:induction false} AllValuesSplit(cs: seq<Slots<Address>>, c: nat, a: Slots<Address>, b: Slots<Address>)
    requires c < |cs| && Values(a) + Values(b) == Values(cs[c])
    ensures AllValues(cs[c := a] + [b]) == AllValues(cs)
  {
    AllValuesReplace(cs, c, a);
    AllValuesAppend(cs[c := a], b);
    var x := AllValues(cs[c := a]);
    assert (x + Values(b)) + Values(a) == AllValues(cs) + Values(a);
    Cancel(x + Values(b), AllValues(cs), Values(a));
  }

  lemma {:induction false} FirstValuesSize(cs: seq<Slots<Address>>, n: nat)
    requires n <= |cs| && forall c :: 0 <= c < |cs| ==> |cs[c]| >= CLUSTER_SIZE / 2
    ensures |FirstValues(cs, n)| >= 8 * n
    decreases n
  {
    if n > 0 {
      FirstValuesSize(cs, n - 1);
      ValuesSize(cs[n - 1]);
    }
  }

  // ----- the discovery node

  /** The answer a gateway gets; its storage-node fields are left out. */
  datatype NeighboursGw = NeighboursGw(gw: seq<Address>, tokenGw: map<Address, Token>,
                                       ownTokenGw: Option<Token>, ownNodeno: int)

  ghost predicate ClusterOk(m: Slots<Address>, tokens: Slots<Token>) {
    Numbered(m, |m|) && Numbered(tokens, |m|)
  }

  /** An address stands at this slot with this token. */
  predicate HasMember(clusters: seq<Slots<Address>>, tokens: seq<Slots<Token>>, c: int, slot: int,
                      address: Address, token: Token)
  {
    && 0 <= c < |clusters| == |tokens|
    && slot in clusters[c] && clusters[c][slot] == address
    && slot in tokens[c] && tokens[c][slot] == token
  }

  /** The member at this slot of a cluster has this address and token. */
  predicate SlotHolds(m: Slots<Address>, tokens: Slots<Token>, slot: int, address: Address, token: Token) {
    slot in m && slot in tokens && m[slot] == address && tokens[slot] == token
  }

  /** The map names exactly the listed addresses, each with a token one of its slots holds. */
  ghost predicate TokensMatch(m: Slots<Address>, tokens: Slots<Token>, gw: seq<Address>,
                              tokenMap: map<Address, Token>)
  {
    && (forall x :: x in tokenMap <==> x in gw)
    && forall x :: x in tokenMap ==> exists slot :: SlotHolds(m, tokens, slot, x, tokenMap[x])
  }

  /** The newcomer stands at this slot, and its neighbours are other members of the same cluster. */
  ghost predicate Introduced(clusters: seq<Slots<Address>>, tokens: seq<Slots<Token>>, c: int, slot: int,
                             newGw: Address, data: NeighboursGw)
  {
    && data.ownTokenGw.Some? && HasMember(clusters, tokens, c, slot, newGw, data.ownTokenGw.value)
    && multiset(data.gw) + multiset{newGw} <= Values(clusters[c])
    && TokensMatch(clusters[c], tokens[c], data.gw, data.tokenGw)
  }

  ghost predicate IsIntroduced(clusters: seq<Slots<Address>>, tokens: seq<Slots<Token>>,
                               newGw: Address, data: NeighboursGw)
  {
    exists c, slot :: Introduced(clusters, tokens, c, slot, newGw, data)
  }

  lemma {:induction false} IntroducedAs(clusters: seq<Slots<Address>>, tokens: seq<Slots<Token>>, c: int, slot: int,
                                        newGw: Address, data: NeighboursGw, nodeno: int)
    requires Introduced(clusters, tokens, c, slot, newGw, data)
    ensures IsIntroduced(clusters, tokens, newGw, data.(ownNodeno := nodeno))
  {
    assert Introduced(clusters, tokens, c, slot, newGw, data.(ownNodeno := nodeno));
  }

  lemma {:induction false} FirstIntroduced(newGw: Address, token: Token)
    ensures IsIntroduced([map[0 := newGw]], [map[0 := token]], newGw, NeighboursGw([], map[], Some(token), 0))
  {
    ValuesPut(map[], 0, newGw);
    assert Introduced([map[0 := newGw]], [map[0 := token]], 0, 0, newGw, NeighboursGw([], map[], Some(token), 0));
  }

  ghost predicate SizeOk(size: int, clusters: int) {
    (if clusters > 1 then CLUSTER_SIZE / 2 else 1) <= size <= CLUSTER_SIZE
  }

  /**
   Slots and tokens are numbered alike from 0; no cluster is empty or has more than 16
   members, and once there are two, none has fewer than 8.
   */
  ghost predicate ClustersOk(cs: seq<Slots<Address>>, ts: seq<Slots<Token>>) {
    && |ts| == |cs|
    && forall c :: 0 <= c < |cs| ==> ClusterOk(cs[c], ts[c]) && SizeOk(|cs[c]|, |cs|)
  }

  lemma {:induction false} SplitOk(cs: seq<Slots<Address>>, ts: seq<Slots<Token>>, c: nat,
                                   a: Slots<Address>, ta: Slots<Token>, b: Slots<Address>, tb: Slots<Token>)
    requires ClustersOk(cs, ts) && c < |cs| && |cs[c]| == CLUSTER_SIZE
    requires ClusterOk(a, ta) && |a| == CLUSTER_SIZE / 2 && ClusterOk(b, tb) && |b| == CLUSTER_SIZE / 2
    ensures ClustersOk(cs[c := a] + [b], ts[c := ta] + [tb])
  {
    var cs', ts' := cs[c := a] + [b], ts[c := ta] + [tb];
    forall i | 0 <= i < |cs'|
      ensures ClusterOk(cs'[i], ts'[i]) && SizeOk(|cs'[i]|, |cs'|)
    {
      if i < |cs| && i != c {
        assert cs'[i] == cs[i] && ts'[i] == ts[i];
        assert ClusterOk(cs[i], ts[i]) && SizeOk(|cs[i]|, |cs|);
      }
    }
  }

  /** The split as a whole, for the numbered maps the two loops leave. */
  lemma {:induction false} SplitWhole(cs: seq<Slots<Address>>, ts: seq<Slots<Token>>, c: nat,
                                      a: Slots<Address>, ta: Slots<Token>, b: Slots<Address>, tb: Slots<Token>)
    requires ClustersOk(cs, ts) && c < |cs| && |cs[c]| == CLUSTER_SIZE && Values(b) + Values(a) == Values(cs[c])
    requires ClusterOk(a, ta) && |a| == CLUSTER_SIZE / 2 && ClusterOk(b, tb) && |b| == CLUSTER_SIZE / 2
    ensures var cs' := cs[c := a] + [b];
      && ClustersOk(cs', ts[c := ta] + [tb]) && AllValues(cs') == AllValues(cs)
      && |cs'| == |cs| + 1 && |cs'[c]| == |cs'[|cs|]| == CLUSTER_SIZE / 2
  {
    AllValuesSplit(cs, c, a, b);
    SplitOk(cs, ts, c, a, ta, b, tb);
  }

  lemma {:induction false} JoinOk(cs: seq<Slots<Address>>, ts: seq<Slots<Token>>, c: nat,
                                  m: Slots<Address>, t: Slots<Token>)
    requires ClustersOk(cs, ts) && c < |cs| && |cs[c]| < CLUSTER_SIZE
    requires ClusterOk(m, t) && |m| == |cs[c]| + 1
    ensures ClustersOk(cs[c := m], ts[c := t])
  {
    var cs', ts' := cs[c := m], ts[c := t];
    forall i | 0 <= i < |cs'|
      ensures ClusterOk(cs'[i], ts'[i]) && SizeOk(|cs'[i]|, |cs'|)
    {
      assert ClusterOk(cs[i], ts[i]) && SizeOk(|cs[i]|, |cs|);
    }
  }

  class DiscoveryNode {
    var gwCluster: seq<Slots<Address>>
    var tokenGw: seq<Slots<Token>>
    var noOfGw: int

    /** Every address that has joined. */
    ghost var joined: multiset<Address>

    ghost predicate WellFormed()
      reads this`gwCluster, this`tokenGw
    {
      ClustersOk(gwCluster, tokenGw)
    }

    ghost predicate Valid()
      reads this
    {
      WellFormed() && AllValues(gwCluster) == joined && noOfGw == |joined| - 1
    }

    constructor ()
      ensures Valid() && joined == multiset{}
    {
      gwCluster, tokenGw, noOfGw, joined := [], [], -1, multiset{};
    }

    /** uuid.New: some token. */
    method NewToken() returns (token: Token)
    {
      token := *;
    }

    /** Up to three members of a cluster, drawn from distinct slots; every slot read is there. */
    method AssignGateway(cluster: nat, newgwIp: Address) returns (data: NeighboursGw)
      requires WellFormed() && cluster < |gwCluster|
      ensures |data.gw| == if |gwCluster[cluster]| < 3 then |gwCluster[cluster]| else 3
      ensures multiset(data.gw) <= Values(gwCluster[cluster])
      ensures TokensMatch(gwCluster[cluster], tokenGw[cluster], data.gw, data.tokenGw)
      ensures data.ownTokenGw == if newgwIp in data.gw then Some(data.tokenGw[newgwIp]) else None
    {
      var m, tokens := gwCluster[cluster], tokenGw[cluster];
      assert ClusterOk(m, tokens);
      var r := RandPerm(|m|);
      var count := if |m| < 3 then |m| else 3;
      var gw: seq<Address> := [];
      var tokenMap: map<Address, Token> := map[];
      ghost var left := m;
      for i := 0 to count
        invariant |gw| == i && multiset(gw) + Values(left) == Values(m)
        invariant TokensMatch(m, tokens, gw, tokenMap)
        invariant forall j :: i <= j < |m| ==> r[j] in left && left[r[j]] == m[r[j]]
      {
        gw, tokenMap, left := TakeSlot(m, tokens, gw, tokenMap, left, r[i]);
      }
      data := NeighboursGw(gw, tokenMap, if newgwIp in tokenMap then Some(tokenMap[newgwIp]) else None, 0);
    }

    /** One appended neighbour of assign_gateway. */
    method TakeSlot(m: Slots<Address>, tokens: Slots<Token>, gw: seq<Address>, tokenMap: map<Address, Token>,
                    ghost left: Slots<Address>, a: int)
      returns (gw': seq<Address>, tokenMap': map<Address, Token>, ghost left': Slots<Address>)
      requires a in left && a in m && a in tokens && left[a] == m[a]
      requires TokensMatch(m, tokens, gw, tokenMap)
      ensures TokensMatch(m, tokens, gw', tokenMap')
      ensures gw' == gw + [m[a]] && left' == Drop(left, a)
      ensures multiset(gw') + Values(left') == multiset(gw) + Values(left)
    {
      ValuesDrop(left, a);
      gw' := gw + [m[a]];
      tokenMap' := tokenMap[m[a] := tokens[a]];
      left' := Drop(left, a);
      assert SlotHolds(m, tokens, a, m[a], tokens[a]);
    }

    method SplitCluster(cluster: nat)
      requires WellFormed() && cluster < |gwCluster| && |gwCluster[cluster]| == CLUSTER_SIZE
      modifies this`gwCluster, this`tokenGw
      ensures WellFormed() && AllValues(gwCluster) == AllValues(old(gwCluster))
      ensures |gwCluster| == |old(gwCluster)| + 1
      ensures |gwCluster[cluster]| == |gwCluster[|gwCluster| - 1]| == CLUSTER_SIZE / 2
    {
      var clusters, tokens := gwCluster, tokenGw;
      var moved, movedTokens, renumbered, renumberedTokens := Halve(clusters[cluster]);
      SplitWhole(clusters, tokens, cluster, renumbered, renumberedTokens, moved, movedTokens);
      gwCluster := clusters[cluster := renumbered] + [moved];
      tokenGw := tokens[cluster := renumberedTokens] + [movedTokens];
    }

    /** The two loops: a random half under new numbers, and the rest renumbered. */
    method Halve(m: Slots<Address>)
      returns (moved: Slots<Address>, movedTokens: Slots<Token>, rest: Slots<Address>, restTokens: Slots<Token>)
      requires Numbered(m, CLUSTER_SIZE)
      ensures ClusterOk(moved, movedTokens) && |moved| == CLUSTER_SIZE / 2
      ensures ClusterOk(rest, restTokens) && |rest| == CLUSTER_SIZE / 2
      ensures Values(moved) + Values(rest) == Values(m)
    {
      var left;
      moved, movedTokens, left := MoveHalf(m);
      rest, restTokens := Renumber(left);
    }

    /** A random half of the old cluster's members, numbered from 0, and what is left. */
    method MoveHalf(m: Slots<Address>) returns (moved: Slots<Address>, tokens: Slots<Token>, rest: Slots<Address>)
      requires Numbered(m, |m|)
      ensures Numbered(moved, |m| / 2) && Numbered(tokens, |m| / 2) && |rest| == |m| - |m| / 2
      ensures Values(moved) + Values(rest) == Values(m)
    {
      var newGwlist := RandPerm(|m|);
      var newClusterSize := |m| / 2;
      moved, tokens, rest := map[], map[], m;
      for i := 0 to newClusterSize
        invariant Numbered(moved, i) && Numbered(tokens, i) && |rest| == |m| - i
        invariant Values(moved) + Values(rest) == Values(m)
        invariant forall j :: i <= j < |m| ==> newGwlist[j] in rest
      {
        moved, tokens, rest := MoveSlot(moved, tokens, rest, i, newGwlist[i]);
      }
    }

    /** Takes one member out of a map and gives it slot i of another, with a new token. */
    method MoveSlot(into: Slots<Address>, tokens: Slots<Token>, from: Slots<Address>, i: nat, slot: int)
      returns (into': Slots<Address>, tokens': Slots<Token>, from': Slots<Address>)
      requires Numbered(into, i) && Numbered(tokens, i) && slot in from
      ensures Numbered(into', i + 1) && Numbered(tokens', i + 1) && from' == Drop(from, slot) && |from'| == |from| - 1
      ensures Values(into') + Values(from') == Values(into) + Values(from)
    {
      var token := NewToken();
      ValuesDrop(from, slot);
      ValuesPut(into, i, from[slot]);
      PutNumbered(into, i, from[slot]);
      PutNumbered(tokens, i, token);
      into', tokens', from' := into[i := from[slot]], tokens[i := token], Drop(from, slot);
    }

    /** The remaining members, renumbered from 0 in the map's arbitrary order. */
    method Renumber(m: Slots<Address>) returns (renumbered: Slots<Address>, tokens: Slots<Token>)
      ensures Numbered(renumbered, |m|) && Numbered(tokens, |m|)
      ensures Values(renumbered) == Values(m)
    {
      renumbered, tokens := map[], map[];
      var i, rest := 0, m;
      while |rest| > 0
        invariant 0 <= i && Numbered(renumbered, i) && Numbered(tokens, i) && i + |rest| == |m|
        invariant Values(renumbered) + Values(rest) == Values(m)
        decreases |rest|
      {
        var slot :| slot in rest;
        renumbered, tokens, rest := MoveSlot(renumbered, tokens, rest, i, slot);
        i := i + 1;
      }
    }

    /** The neighbours drawn before the newcomer is put in are members beside it afterwards. */
    static lemma {:induction false} IntroducedOk(m: Slots<Address>, tokens: Slots<Token>, slot: int, newGw: Address,
                                                 token: Token, gw: seq<Address>, tokenMap: map<Address, Token>)
      requires slot !in m && slot !in tokens
      requires multiset(gw) <= Values(m) && TokensMatch(m, tokens, gw, tokenMap)
      ensures multiset(gw) + multiset{newGw} <= Values(m[slot := newGw])
      ensures TokensMatch(m[slot := newGw], tokens[slot := token], gw, tokenMap)
    {
      ValuesPut(m, slot, newGw);
      var m', tokens' := m[slot := newGw], tokens[slot := token];
      forall x | x in tokenMap
        ensures exists k :: SlotHolds(m', tokens', k, x, tokenMap[x])
      {
        var k :| SlotHolds(m, tokens, k, x, tokenMap[x]);
        assert SlotHolds(m', tokens', k, x, tokenMap[x]);
      }
    }

    /** Puts the newcomer in the next free slot. */
    method AddMember(cluster: nat, newGw: Address) returns (token: Token)
      requires WellFormed() && cluster < |gwCluster| && |gwCluster[cluster]| < CLUSTER_SIZE
      modifies this`gwCluster, this`tokenGw
      ensures WellFormed() && |gwCluster| == |old(gwCluster)|
      ensures |gwCluster[cluster]| == |old(gwCluster)[cluster]| + 1
      ensures forall c :: 0 <= c < |gwCluster| && c != cluster ==>
        gwCluster[c] == old(gwCluster)[c] && tokenGw[c] == old(tokenGw)[c]
      ensures AllValues(gwCluster) == AllValues(old(gwCluster)) + multiset{newGw}
      ensures HasMember(gwCluster, tokenGw, cluster, |old(gwCluster)[cluster]|, newGw, token)
      ensures gwCluster[cluster] == old(gwCluster)[cluster][|old(gwCluster)[cluster]| := newGw]
      ensures tokenGw[cluster] == old(tokenGw)[cluster][|old(gwCluster)[cluster]| := token]
    {
      var m, tokens := gwCluster[cluster], tokenGw[cluster];
      assert ClusterOk(m, tokens);
      token := NewToken();
      PutNumbered(m, |m|, newGw);
      PutNumbered(tokens, |m|, token);
      AllValuesJoin(gwCluster, cluster, |m|, newGw);
      JoinOk(gwCluster, tokenGw, cluster, m[|m| := newGw], tokens[|tokens| := token]);
      gwCluster := gwCluster[cluster := m[|m| := newGw]];
      tokenGw := tokenGw[cluster := tokens[|tokens| := token]];
    }

    method FirstCluster(newGw: Address) returns (token: Token)
      requires gwCluster == []
      modifies this`gwCluster, this`tokenGw
      ensures WellFormed() && AllValues(gwCluster) == multiset{newGw}
      ensures HasMember(gwCluster, tokenGw, 0, 0, newGw, token)
      ensures gwCluster == [map[0 := newGw]] && tokenGw == [map[0 := token]]
    {
      token := NewToken();
      FirstMember(newGw, token);
      gwCluster, tokenGw := [map[0 := newGw]], [map[0 := token]];
    }

    /** The branches for a cluster drawn among those there are; an empty one cannot be drawn. */
    method JoinCluster(cluster: nat, newGw: Address) returns (data: NeighboursGw)
      requires WellFormed() && cluster < |gwCluster|
      modifies this`gwCluster, this`tokenGw
      ensures WellFormed() && AllValues(gwCluster) == AllValues(old(gwCluster)) + multiset{newGw}
      ensures 1 <= |data.gw| <= 3 && cluster < |gwCluster|
      ensures Introduced(gwCluster, tokenGw, cluster, |gwCluster[cluster]| - 1, newGw, data)
    {
      assert ClusterOk(gwCluster[cluster], tokenGw[cluster]);
      if |gwCluster[cluster]| == 0 {
        assert false;
      } else if |gwCluster[cluster]| < CLUSTER_SIZE {
        data := AssignGateway(cluster, newGw);
      } else {
        SplitCluster(cluster);
        data := AssignGateway(cluster, newGw);
      }
      assert ClusterOk(gwCluster[cluster], tokenGw[cluster]);
      ghost var m, tokens, slot := gwCluster[cluster], tokenGw[cluster], |gwCluster[cluster]|;
      var token := AddMember(cluster, newGw);
      IntroducedOk(m, tokens, slot, newGw, token, data.gw, data.tokenGw);
      data := data.(ownTokenGw := Some(token));
    }

    /** The branches of GetGateways; number is the count of the gateways before this one. */
    method Admit(newGw: Address, number: int) returns (data: NeighboursGw)
      requires WellFormed()
      modifies this`gwCluster, this`tokenGw
      ensures WellFormed() && AllValues(gwCluster) == AllValues(old(gwCluster)) + multiset{newGw}
      ensures data.ownNodeno == if old(gwCluster) == [] then 0 else number
      ensures |data.gw| <= 3 && (old(gwCluster) != [] ==> data.gw != [])
      ensures IsIntroduced(gwCluster, tokenGw, newGw, data)
    {
      if |gwCluster| == 0 {
        var token := FirstCluster(newGw);
        data := NeighboursGw([], map[], Some(token), 0);
        FirstIntroduced(newGw, token);
        return;
      }
      var cluster := RandIntn(|gwCluster|);
      data := JoinCluster(cluster, newGw);
      IntroducedAs(gwCluster, tokenGw, cluster, |gwCluster[cluster]| - 1, newGw, data, number);
      data := data.(ownNodeno := number);
    }

    method GetGateways(newGw: Address) returns (data: NeighboursGw)
      requires Valid()
      modifies this
      ensures Valid() && joined == old(joined) + multiset{newGw}
      ensures data.ownNodeno == |old(joined)|
      ensures |data.gw| <= 3 && (old(joined) != multiset{} ==> data.gw != [])
      ensures IsIntroduced(gwCluster, tokenGw, newGw, data)
    {
      noOfGw := noOfGw + 1;
      data := Admit(newGw, noOfGw);
      joined := joined + multiset{newGw};
    }

    /** One accepted connection of a gateway; the answer goes out on the socket. */
    method Serve(newGw: Address)
      requires Valid()
      modifies this
      ensures Valid() && joined == old(joined) + multiset{newGw}
    {
      var data := GetGateways(newGw);
    }

    lemma {:induction false} FirstMember(newGw: Address, token: Token)
      ensures ClusterOk(map[0 := newGw], map[0 := token])
      ensures AllValues([map[0 := newGw]]) == multiset{newGw}
    {
      PutNumbered(map[], 0, newGw);
      PutNumbered(map[], 0, token);
      ValuesPut(map[], 0, newGw);
      AllValuesAppend([], map[0 := newGw]);
      assert [] + [map[0 := newGw]] == [map[0 := newGw]];
    }

    /** However many gateways join, there are at most max(1, N/8) clusters. */
    lemma {:induction false} FewClusters()
      requires Valid()
      ensures |gwCluster| <= 1 || 8 * |gwCluster| <= |joined|
    {
      if |gwCluster| > 1 {
        FirstValuesSize(gwCluster, |gwCluster|);
      }
    }
  }

  /** The accept loop, serving gateways one after the other. */
  method CreateSocket(addresses: seq<Address>) returns (dn: DiscoveryNode)
    ensures dn.Valid() && dn.joined == multiset(addresses)
    ensures |dn.gwCluster| <= 1 || 8 * |dn.gwCluster| <= |addresses|
  {
    dn := new DiscoveryNode();
    for i := 0 to |addresses|
      invariant fresh(dn) && dn.Valid() && dn.joined == multiset(addresses[..i])
    {
      dn.Serve(addresses[i]);
      assert addresses[..i + 1] == addresses[..i] + [addresses[i]];
    }
    assert addresses[..|addresses|] == addresses;
    dn.FewClusters();
  }
}
