/**
 The storage node's DAG: verification of a vertex's tips, insertion with the reverse index
 Neighbours, and the cumulative weight of the vertices at most 16 hops below an insert.
 */
module StorageDag {
  import opened Dag

  /** bitLen: how many hops a weight increment and a random walk go. */
  const BIT_LEN: nat := 16

  // ----- what a well-kept graph is

  /** Neighbours(x) lists each approver of x exactly once and nothing else. */
  ghost predicate IndexOk(g: Graph) {
    forall x :: x in g ==>
      && NoRepeats(g[x].neighbours)
      && forall y :: y in g[x].neighbours <==> Edge(TipsOf(g), y, x)
  }

  /** Both tips of every vertex but genesis are in the graph; genesis has none. */
  ghost predicate TipsPresent(g: Graph, genesis: Hash) {
    && ZERO !in g
    && genesis in g && g[genesis].tx.leftTip == ZERO && g[genesis].tx.rightTip == ZERO
    && forall h {:trigger g[h].tx.leftTip} {:trigger g[h].tx.rightTip} ::
         h in g && h != genesis ==> g[h].tx.leftTip in g && g[h].tx.rightTip in g
  }

  /** Whoever is listed as a neighbour is an approver in the graph; repeats and gaps are allowed. */
  ghost predicate NeighboursApprove(g: Graph) {
    forall x, y :: x in g && y in g[x].neighbours ==> Edge(TipsOf(g), y, x)
  }

  /** What a pruning round relies on; unlike WellKept it survives a hash being inserted again. */
  ghost predicate Sound(g: Graph, genesis: Hash) {
    TipsPresent(g, genesis) && Acyclic(TipsOf(g)) && NeighboursApprove(g)
  }

  ghost predicate WellKept(g: Graph, genesis: Hash) {
    && (forall h :: h in g ==> g[h].tx.hash == h && g[h].weight >= 0)
    && TipsPresent(g, genesis)
    && Acyclic(TipsOf(g))
    && IndexOk(g)
  }

  lemma {:induction false} WellKeptIsSound(g: Graph, genesis: Hash)
    requires WellKept(g, genesis)
    ensures Sound(g, genesis)
  {}

  lemma {:induction false} KnownClosed(g: Graph, genesis: Hash)
    requires TipsPresent(g, genesis)
    ensures Closed(TipsOf(g), TipsOf(g).Keys + {ZERO})
  {
    var t := TipsOf(g);
    forall a, b | Edge(t, a, b)
      ensures b in t.Keys + {ZERO}
    {
      assert b == g[a].tx.leftTip || b == g[a].tx.rightTip;
    }
  }

  // ----- insertion

  /** The tip check of VerifyVertex. */
  predicate TipsFound(g: Graph, v: Vertex) {
    v.tx.leftTip in g && v.tx.rightTip in g
  }

  /** What the caller of AddToDAG has to see to: a hash not used before and a blank vertex. */
  predicate Fresh(g: Graph, v: Vertex) {
    v.tx.hash !in g && v.tx.hash != ZERO && v.neighbours == [] && v.weight >= 0
  }

  lemma {:induction false} FreshUnreferenced(g: Graph, genesis: Hash, h: Hash)
    requires WellKept(g, genesis) && h !in g && h != ZERO
    ensures Unreferenced(TipsOf(g), h)
  {}

  lemma {:induction false} InsertIndexOk(g: Graph, genesis: Hash, v: Vertex)
    requires WellKept(g, genesis) && TipsFound(g, v) && Fresh(g, v)
    ensures IndexOk(Insert(g, v))
  {
    var h, g' := v.tx.hash, Insert(g, v);
    var t, t' := TipsOf(g), TipsOf(Insert(g, v));
    InsertTips(g, v);
    FreshUnreferenced(g, genesis, h);
    forall x | x in g'
      ensures NoRepeats(g'[x].neighbours)
      ensures forall y :: y in g'[x].neighbours <==> Edge(t', y, x)
    {
      if x == h {
        assert g'[h] == v;
      } else {
        InsertKeeps(g, v, x);
        assert !Edge(t, h, x);
        assert forall y :: y != h ==> (Edge(t', y, x) <==> Edge(t, y, x));
      }
    }
  }

  lemma {:induction false} InsertTipsPresent(g: Graph, genesis: Hash, v: Vertex)
    requires TipsPresent(g, genesis) && TipsFound(g, v) && Fresh(g, v)
    ensures TipsPresent(Insert(g, v), genesis)
  {
    var h, g' := v.tx.hash, Insert(g, v);
    assert g'.Keys == g.Keys + {h} && g'[h].tx == v.tx;
    forall x | x in g
      ensures g'[x].tx == g[x].tx
    {
      InsertKeeps(g, v, x);
    }
  }

  /** A verified insert of a fresh vertex keeps the graph well kept. */
  lemma {:induction false} InsertWellKept(g: Graph, genesis: Hash, v: Vertex)
    requires WellKept(g, genesis) && TipsFound(g, v) && Fresh(g, v)
    ensures WellKept(Insert(g, v), genesis)
  {
    var h, g' := v.tx.hash, Insert(g, v);
    InsertTipsPresent(g, genesis, v);
    InsertIndexOk(g, genesis, v);
    assert Acyclic(TipsOf(g')) by {
      InsertTips(g, v);
      FreshUnreferenced(g, genesis, h);
      ExtendAcyclic(TipsOf(g), h, Tips(v.tx.leftTip, v.tx.rightTip));
    }
    forall x | x in g'
      ensures g'[x].tx.hash == x && g'[x].weight >= 0
    {
      if x != h {
        InsertKeeps(g, v, x);
      }
    }
  }

  /** And only a fresh vertex does: the caller's obligation is exact. */
  lemma {:induction false} InsertWellKeptOnlyIfFresh(g: Graph, genesis: Hash, v: Vertex)
    requires WellKept(g, genesis) && TipsFound(g, v)
    ensures WellKept(Insert(g, v), genesis) <==> Fresh(g, v)
  {
    var h, g' := v.tx.hash, Insert(g, v);
    InsertTips(g, v);
    if Fresh(g, v) {
      InsertWellKept(g, genesis, v);
    } else if h == v.tx.leftTip || h == v.tx.rightTip {
      EdgeHop(TipsOf(g'), h, h);
    } else if h == genesis {
      assert g'[genesis].tx == v.tx;
    } else if h in g {
      StaleApproval(g, genesis, v);
    } else if h != ZERO && v.weight >= 0 {
      FreshUnreferenced(g, genesis, h);
      assert v.neighbours[0] in g'[h].neighbours && !Edge(TipsOf(g'), v.neighbours[0], h);
    } else {
      assert h in g' && g'[h] == v;
    }
  }

  /** Re-inserting a hash leaves some tip listing it twice, or listing an approval that is gone. */
  lemma {:induction false} StaleApproval(g: Graph, genesis: Hash, v: Vertex)
    requires WellKept(g, genesis) && TipsFound(g, v)
    requires v.tx.hash in g && v.tx.hash != genesis
    requires v.tx.hash != v.tx.leftTip && v.tx.hash != v.tx.rightTip
    ensures !IndexOk(Insert(g, v))
  {
    var h, g' := v.tx.hash, Insert(g, v);
    var t, t' := TipsOf(g), TipsOf(g');
    InsertTips(g, v);
    var x := g[h].tx.leftTip;
    assert Edge(t, h, x) && h in g[x].neighbours;
    if x == h {
      EdgeHop(t, h, h);
    } else {
      InsertKeeps(g, v, x);
      var k :| 0 <= k < |g[x].neighbours| && g[x].neighbours[k] == h;
      assert g'[x].neighbours[k] == h;
      if x == v.tx.leftTip || x == v.tx.rightTip {
        assert g'[x].neighbours[|g[x].neighbours|] == h;
      } else {
        assert !Edge(t', h, x);
      }
    }
  }

  // ----- cumulative weight

  /** The hashes getChildren collects below h within n hops. */
  function Children(t: TipMap, h: Hash, n: nat): set<Hash>
    decreases n, t.Keys
  {
    if n == 0 || h !in t then {}
    else {t[h].left, t[h].right} + Children(t, t[h].left, n - 1) + Children(t, t[h].right, n - 1)
  }

  ghost predicate ReachesWithin(t: TipMap, a: Hash, b: Hash, n: nat) {
    exists k: nat :: 1 <= k <= n && Hops(t, a, b, k)
  }

  /** Children(h, n) is exactly what a tip path of length 1 to n reaches. */
  lemma {:induction false} ChildrenAreReached(t: TipMap, h: Hash, n: nat, x: Hash)
    ensures x in Children(t, h, n) <==> ReachesWithin(t, h, x, n)
    decreases n
  {
    if n > 0 && h in t {
      var l, r := t[h].left, t[h].right;
      ChildrenAreReached(t, l, n - 1, x);
      ChildrenAreReached(t, r, n - 1, x);
      if x in Children(t, h, n) {
        if x == l || x == r {
          EdgeHop(t, h, x);
        } else {
          var tip := if x in Children(t, l, n - 1) then l else r;
          var k: nat :| 1 <= k <= n - 1 && Hops(t, tip, x, k);
          assert Hops(t, h, x, k + 1);
        }
      }
      if ReachesWithin(t, h, x, n) {
        var k: nat :| 1 <= k <= n && Hops(t, h, x, k);
        var tip := if Hops(t, l, x, k - 1) then l else r;
        assert Hops(t, tip, x, k - 1);
        assert k == 1 ==> x == tip;
      }
    }
  }

  /** A vertex nothing points to changes nobody else's children. */
  lemma {:induction false} ChildrenExtend(t: TipMap, h: Hash, tips: Tips, a: Hash, n: nat)
    requires h !in t && Unreferenced(t, h) && a != h
    ensures Children(t[h := tips], a, n) == Children(t, a, n)
    ensures h !in Children(t, a, n)
    decreases n
  {
    if n > 0 && a in t {
      ChildrenExtend(t, h, tips, t[a].left, n - 1);
      ChildrenExtend(t, h, tips, t[a].right, n - 1);
    }
  }

  /** One locked increment of updateWeightOfChildren. */
  function Raise(g: Graph, x: Hash): Graph {
    if x in g then g[x := Heavier(g[x])] else g
  }

  /** Increments touch weights only. */
  lemma {:induction false} RaiseAllWellKept(g: Graph, genesis: Hash, s: set<Hash>)
    requires WellKept(g, genesis)
    ensures TipsOf(RaiseAll(g, s)) == TipsOf(g) && WellKept(RaiseAll(g, s), genesis)
  {
    assert TipsOf(RaiseAll(g, s)) == TipsOf(g);
  }

  lemma {:induction false} RaiseIsRaiseAll(g: Graph, x: Hash)
    ensures Raise(g, x) == RaiseAll(g, {x})
  {}

  lemma {:induction false} RaiseWellKept(g: Graph, genesis: Hash, x: Hash)
    requires WellKept(g, genesis)
    ensures TipsOf(Raise(g, x)) == TipsOf(g) && WellKept(Raise(g, x), genesis)
  {
    RaiseIsRaiseAll(g, x);
    RaiseAllWellKept(g, genesis, {x});
  }

  /** The inserted vertices whose weight increment x has received once nothing is pending. */
  function Contributors(t: TipMap, x: Hash): set<Hash> {
    set y | y in t && x in Children(t, y, BIT_LEN)
  }

  /** Every weight is what the vertex arrived with plus one for each vertex at most 16 hops above it. */
  ghost predicate Weighed(g: Graph, base: map<Hash, int>) {
    && base.Keys == g.Keys
    && forall x :: x in g ==> g[x].weight == base[x] + |Contributors(TipsOf(g), x)|
  }

  /** The graph after a whole AddToDAG with nothing running beside it. */
  function Added(g: Graph, v: Vertex): Graph {
    var g' := Insert(g, v);
    RaiseAll(g', Children(TipsOf(g'), v.tx.hash, BIT_LEN))
  }

  lemma {:induction false} ContributorsExtend(t: TipMap, h: Hash, tips: Tips, x: Hash)
    requires h !in t && Unreferenced(t, h) && tips.left != h && tips.right != h
    ensures var t' := t[h := tips];
      && Contributors(t', x) ==
           Contributors(t, x) + (if x in Children(t', h, BIT_LEN) then {h} else {})
      && (x == h ==> Contributors(t', h) == {})
  {
    var t' := t[h := tips];
    forall y | y in t
      ensures Children(t', y, BIT_LEN) == Children(t, y, BIT_LEN) && h !in Children(t, y, BIT_LEN)
    {
      ChildrenExtend(t, h, tips, y, BIT_LEN);
    }
    if x == h {
      ChildrenExtend(t, h, tips, tips.left, BIT_LEN - 1);
      ChildrenExtend(t, h, tips, tips.right, BIT_LEN - 1);
      assert h !in Children(t', h, BIT_LEN);
    }
  }

  lemma {:induction false} AddedWellKept(g: Graph, genesis: Hash, v: Vertex)
    requires WellKept(g, genesis) && TipsFound(g, v) && Fresh(g, v)
    ensures WellKept(Added(g, v), genesis)
    ensures TipsOf(Added(g, v)) == TipsOf(Insert(g, v)) && Added(g, v).Keys == g.Keys + {v.tx.hash}
  {
    var g' := Insert(g, v);
    InsertWellKept(g, genesis, v);
    RaiseAllWellKept(g', genesis, Children(TipsOf(g'), v.tx.hash, BIT_LEN));
  }

  /** A sequential AddToDAG keeps every weight exact. */
  lemma {:induction false} AddedWeighed(g: Graph, genesis: Hash, v: Vertex, base: map<Hash, int>)
    requires WellKept(g, genesis) && TipsFound(g, v) && Fresh(g, v) && Weighed(g, base)
    ensures Weighed(Added(g, v), base[v.tx.hash := v.weight])
  {
    var a, base' := Added(g, v), base[v.tx.hash := v.weight];
    AddedWellKept(g, genesis, v);
    assert base'.Keys == a.Keys;
    forall x | x in a
      ensures a[x].weight == base'[x] + |Contributors(TipsOf(a), x)|
    {
      AddedWeight(g, genesis, v, base, x);
    }
  }

  lemma {:induction false} RaiseAllTips(g: Graph, s: set<Hash>)
    ensures TipsOf(RaiseAll(g, s)) == TipsOf(g)
  {}

  /** A path of the new tip map that ends short of h, or first meets it after some steps of the old one. */
  lemma {:induction false} PathMeets(t: TipMap, h: Hash, tips: Tips, y: Hash, x: Hash, n: nat) returns (k: nat)
    requires Hops(t[h := tips], y, x, n)
    ensures k <= n && (Hops(t, y, x, n) || (k < n && Hops(t, y, h, k)))
    decreases n
  {
    k := 0;
    if n > 0 && y != h {
      var t' := t[h := tips];
      var next := if Hops(t', t[y].left, x, n - 1) then t[y].left else t[y].right;
      var m := PathMeets(t, h, tips, next, x, n - 1);
      k := m + 1;
    }
  }

  /** With other tips for h no vertex comes to reach an old tip of h within n hops. */
  lemma {:induction false} OldTipReached(t: TipMap, h: Hash, tips: Tips, x: Hash, y: Hash, n: nat)
    requires Edge(t, h, x) && ReachesWithin(t[h := tips], y, x, n)
    ensures ReachesWithin(t, y, x, n)
  {
    var m: nat :| 1 <= m <= n && Hops(t[h := tips], y, x, m);
    var k := PathMeets(t, h, tips, y, x, m);
    if !Hops(t, y, x, m) {
      EdgeHop(t, h, x);
      HopsCompose(t, y, h, x, k, 1);
    }
  }

  /** So an old tip of h only loses contributors, and loses h unless the increments reach it again. */
  lemma {:induction false} OldTipContributors(t: TipMap, h: Hash, tips: Tips, x: Hash)
    requires Edge(t, h, x)
    ensures var t' := t[h := tips];
      && Contributors(t', x) <= Contributors(t, x) && h in Contributors(t, x)
      && (x !in Children(t', h, BIT_LEN) ==> h !in Contributors(t', x))
  {
    var t' := t[h := tips];
    forall y | y in Contributors(t', x)
      ensures y in Contributors(t, x)
    {
      ChildrenAreReached(t', y, BIT_LEN, x);
      OldTipReached(t, h, tips, x, y, BIT_LEN);
      ChildrenAreReached(t, y, BIT_LEN, x);
    }
  }

  lemma {:induction false} FewerContributors(a: set<Hash>, b: set<Hash>, h: Hash)
    requires a <= b
    ensures |a| <= |b| && (h in b && h !in a ==> |a| < |b|)
  {
    assert b == a + (b - a) && |b| == |a| + |b - a|;
  }

  /** The weights an insertion leaves, increments included: one more for whatever lies within 16 hops. */
  lemma {:induction false} AddedShape(g: Graph, v: Vertex, x: Hash)
    requires x in g && x != v.tx.hash
    ensures var t' := TipsOf(g)[v.tx.hash := Tips(v.tx.leftTip, v.tx.rightTip)];
      && TipsOf(Added(g, v)) == t' && x in Added(g, v)
      && Added(g, v)[x].weight == g[x].weight + if x in Children(t', v.tx.hash, BIT_LEN) then 1 else 0
  {
    InsertTips(g, v);
    InsertKeeps(g, v, x);
    RaiseAllTips(Insert(g, v), Children(TipsOf(Insert(g, v)), v.tx.hash, BIT_LEN));
  }

  lemma {:induction false} AddedOwnShape(g: Graph, v: Vertex)
    ensures var t' := TipsOf(g)[v.tx.hash := Tips(v.tx.leftTip, v.tx.rightTip)];
      && TipsOf(Added(g, v)) == t' && v.tx.hash in Added(g, v) && Added(g, v).Keys == g.Keys + {v.tx.hash}
      && Added(g, v)[v.tx.hash].weight ==
           v.weight + if v.tx.hash in Children(t', v.tx.hash, BIT_LEN) then 1 else 0
  {
    InsertTips(g, v);
    RaiseAllTips(Insert(g, v), Children(TipsOf(Insert(g, v)), v.tx.hash, BIT_LEN));
  }

  /** Inserting a hash other than genesis again, with whatever tips, miscounts one of its old tips. */
  lemma {:induction false} RepeatMiscounts(g: Graph, v: Vertex, base: map<Hash, int>)
    requires Acyclic(TipsOf(g)) && Weighed(g, base) && v.tx.hash in g && g[v.tx.hash].tx.leftTip in g
    ensures !Weighed(Added(g, v), base[v.tx.hash := v.weight])
  {
    var t, h, tips := TipsOf(g), v.tx.hash, Tips(v.tx.leftTip, v.tx.rightTip);
    var x := t[h].left;
    EdgeHop(t, h, x);
    assert x != h;
    AddedShape(g, v, x);
    OldTipContributors(t, h, tips, x);
    FewerContributors(Contributors(t[h := tips], x), Contributors(t, x), h);
  }

  /** Some vertex approves genesis directly unless genesis is alone. */
  lemma {:induction false} ApproverOfGenesis(g: Graph, genesis: Hash, a: Hash) returns (q: Hash)
    requires TipsPresent(g, genesis) && Acyclic(TipsOf(g)) && a in g && a != genesis
    ensures q in g && q != genesis && Edge(TipsOf(g), q, genesis)
    decreases Below(TipsOf(g), a)
  {
    var t := TipsOf(g);
    var next := t[a].left;
    assert g[a].tx.leftTip == next && next in g && Edge(t, a, next);
    if next == genesis {
      q := a;
    } else {
      BelowShrinks(t, a, next);
      q := ApproverOfGenesis(g, genesis, next);
    }
  }

  /** Genesis again: its approvers no longer show in its weight, and nothing makes up for all of them. */
  lemma {:induction false} GenesisMiscounts(g: Graph, genesis: Hash, v: Vertex, base: map<Hash, int>)
    requires TipsPresent(g, genesis) && Acyclic(TipsOf(g)) && v.tx.hash == genesis && g.Keys != {genesis}
    ensures !Weighed(Added(g, v), base[genesis := v.weight])
  {
    var a :| a in g && a != genesis;
    var q := ApproverOfGenesis(g, genesis, a);
    var t' := TipsOf(g)[genesis := Tips(v.tx.leftTip, v.tx.rightTip)];
    AddedOwnShape(g, v);
    var c := Contributors(t', genesis);
    assert genesis in Children(t', q, BIT_LEN) && q in c;
    var own := if genesis in Children(t', genesis, BIT_LEN) then {genesis} else {};
    FewerContributors(own, c, q);
  }

  lemma {:induction false} GenesisAgain(g: Graph, genesis: Hash, v: Vertex, base: map<Hash, int>)
    requires TipsFound(g, v) && v.tx.hash == genesis && g.Keys == {genesis} && base.Keys == g.Keys
    ensures Weighed(Added(g, v), base[genesis := v.weight])
  {
    var t' := TipsOf(g)[genesis := Tips(genesis, genesis)];
    AddedOwnShape(g, v);
    assert genesis in Children(t', genesis, BIT_LEN);
    assert Contributors(t', genesis) == {genesis};
    assert Added(g, v).Keys == {genesis};
  }

  /**
   A blank verified vertex leaves every weight exact if and only if its hash is new, or it is genesis
   again with nothing over it; the tips it brings do not matter.
   */
  lemma {:induction false} AddedWeighedExactly(g: Graph, genesis: Hash, v: Vertex, base: map<Hash, int>)
    requires WellKept(g, genesis) && TipsFound(g, v) && Weighed(g, base)
    requires v.tx.hash != ZERO && v.neighbours == [] && v.weight >= 0
    ensures Weighed(Added(g, v), base[v.tx.hash := v.weight]) <==> v.tx.hash !in g || g.Keys == {genesis}
  {
    if v.tx.hash !in g {
      AddedWeighed(g, genesis, v, base);
    } else if v.tx.hash != genesis {
      assert g[v.tx.hash].tx.leftTip in g;
      RepeatMiscounts(g, v, base);
    } else if g.Keys != {genesis} {
      GenesisMiscounts(g, genesis, v, base);
    } else {
      GenesisAgain(g, genesis, v, base);
    }
  }

  lemma {:induction false} AddedWeight(g: Graph, genesis: Hash, v: Vertex, base: map<Hash, int>, x: Hash)
    requires WellKept(g, genesis) && TipsFound(g, v) && Fresh(g, v) && Weighed(g, base)
    requires x in g || x == v.tx.hash
    ensures x in Added(g, v)
    ensures Added(g, v)[x].weight ==
      base[v.tx.hash := v.weight][x] + |Contributors(TipsOf(Insert(g, v)), x)|
  {
    var h, g' := v.tx.hash, Insert(g, v);
    var t, t' := TipsOf(g), TipsOf(g');
    InsertTips(g, v);
    FreshUnreferenced(g, genesis, h);
    ContributorsExtend(t, h, Tips(v.tx.leftTip, v.tx.rightTip), x);
    var up := Children(t', h, BIT_LEN);
    if x == h {
      assert g'[h] == v;
      assert Contributors(t', h) == {};
    } else {
      InsertKeeps(g, v, x);
      assert h !in Contributors(t, x);
      assert Added(g, v)[x].weight == g[x].weight + if x in up then 1 else 0;
    }
  }

  // ----- the handlers

  method VerifyVertex(vertex: Vertex, signatureAndPowOk: bool, dag: DAG) returns (ok: bool)
    ensures ok <==> signatureAndPowOk && TipsFound(dag.graph, vertex)
  {
    if !signatureAndPowOk {
      return false;
    }
    if vertex.tx.leftTip !in dag.graph {
      return false;
    }
    if vertex.tx.rightTip !in dag.graph {
      return false;
    }
    ok := true;
  }

  method GetChildren(dag: DAG, tip: Hash, children: KeySet, iteration: nat)
    modifies children
    ensures children.keys == old(children.keys) + Children(TipsOf(dag.graph), tip, iteration)
    decreases iteration
  {
    if iteration == 0 {
      return;
    }
    if tip in dag.graph {
      var vertex := dag.graph[tip];
      children.keys := children.keys + {vertex.tx.leftTip};
      children.keys := children.keys + {vertex.tx.rightTip};
      GetChildren(dag, vertex.tx.leftTip, children, iteration - 1);
      GetChildren(dag, vertex.tx.rightTip, children, iteration - 1);
    }
  }

  method UpdateWeightOfChildren(dag: DAG, children: KeySet)
    modifies dag
    ensures dag.graph == RaiseAll(old(dag.graph), children.keys)
  {
    ghost var g := dag.graph;
    var rest := children.keys;
    assert dag.graph == RaiseAll(g, children.keys - rest);
    while rest != {}
      invariant rest <= children.keys
      invariant dag.graph == RaiseAll(g, children.keys - rest)
      decreases rest
    {
      var child :| child in rest;
      rest := rest - {child};
      if child in dag.graph {
        var vertex := dag.graph[child];
        dag.graph := dag.graph[child := vertex.(weight := vertex.weight + 1)];
      }
    }
    assert children.keys - rest == children.keys;
  }

  /** The Tx.Hash Go reads for a key: that of the zero Vertex when the key is missing. */
  function OwnHash(g: Graph, h: Hash): Hash {
    if h in g then g[h].tx.hash else ZERO
  }

  method UpdateWeight(dag: DAG, hash: Hash)
    modifies dag
    ensures dag.graph ==
      RaiseAll(old(dag.graph), Children(TipsOf(old(dag.graph)), OwnHash(old(dag.graph), hash), BIT_LEN))
    ensures dag.graph.Keys == old(dag.graph).Keys
    ensures forall x :: x in dag.graph ==>
      && dag.graph[x].tx == old(dag.graph)[x].tx
      && dag.graph[x].neighbours == old(dag.graph)[x].neighbours
      && dag.graph[x].confirmed == old(dag.graph)[x].confirmed
      && 0 <= dag.graph[x].weight - old(dag.graph)[x].weight <= 1
  {
    var children := new KeySet();
    GetChildren(dag, OwnHash(dag.graph, hash), children, BIT_LEN);
    UpdateWeightOfChildren(dag, children);
  }

  /**
   A whole AddToDAG, field by field: what the vertex names as tips lists it once more, what a path of
   1 to 16 tip hops leads to from it weighs one more, and nothing else changes.
   */
  lemma {:induction false} AddedExactly(g: Graph, v: Vertex)
    ensures var h, g' := v.tx.hash, Added(g, v);
      && g'.Keys == g.Keys + {h}
      && (forall x :: x in g' && x != h ==>
            && g'[x].tx == g[x].tx && g'[x].confirmed == g[x].confirmed
            && g'[x].neighbours == g[x].neighbours +
                 (if x == v.tx.leftTip || x == v.tx.rightTip then [h] else [])
            && g'[x].weight == if ReachesWithin(TipsOf(g'), h, x, 16) then g[x].weight + 1 else g[x].weight)
      && g'[h].tx == v.tx && g'[h].confirmed == v.confirmed
      && g'[h].neighbours == v.neighbours + (if v.tx.leftTip == h || v.tx.rightTip == h then [h] else [])
      && g'[h].weight == if ReachesWithin(TipsOf(g'), h, h, 16) then v.weight + 1 else v.weight
  {
    var h, y := v.tx.hash, Insert(g, v);
    var below := Children(TipsOf(y), h, BIT_LEN);
    InsertTips(g, v);
    InsertOwn(g, v);
    RaiseAllTips(y, below);
    RaiseAllExactly(y, below);
    assert y.Keys == g.Keys + {h};
    forall x | x in y
      ensures x in below <==> ReachesWithin(TipsOf(y), h, x, 16)
    {
      ChildrenAreReached(TipsOf(y), h, BIT_LEN, x);
    }
    forall x | x in g && x != h
      ensures x in y && y[x] == g[x].(neighbours :=
        if x == v.tx.leftTip || x == v.tx.rightTip then g[x].neighbours + [h] else g[x].neighbours)
    {
      InsertKeeps(g, v, x);
    }
  }

  method AddToDAG(vertex: Vertex, dag: DAG)
    modifies dag
    ensures dag.graph == Added(old(dag.graph), vertex)
  {
    var hash := vertex.tx.hash;
    dag.graph := dag.graph[hash := vertex];
    var leftTip, rightTip := vertex.tx.leftTip, vertex.tx.rightTip;
    if leftTip in dag.graph {
      var tip := dag.graph[leftTip];
      dag.graph := dag.graph[leftTip := tip.(neighbours := tip.neighbours + [hash])];
    }
    if rightTip in dag.graph && rightTip != leftTip {
      var tip := dag.graph[rightTip];
      dag.graph := dag.graph[rightTip := tip.(neighbours := tip.neighbours + [hash])];
    }
    UpdateWeight(dag, hash);
  }

  method HandleTransactions(vtx: Vertex, signatureAndPowOk: bool, dag: DAG) returns (added: bool)
    modifies dag
    ensures added <==> signatureAndPowOk && TipsFound(old(dag.graph), vtx)
    ensures dag.graph == if added then Added(old(dag.graph), vtx) else old(dag.graph)
  {
    var ok := VerifyVertex(vtx, signatureAndPowOk, dag);
    if ok {
      AddToDAG(vtx, dag);
    }
    added := ok;
  }

  method InitDag(dag: DAG, genesis: Transaction)
    requires genesis.hash != ZERO && genesis.leftTip == ZERO && genesis.rightTip == ZERO
    modifies dag
    ensures dag.graph == map[genesis.hash := Vertex(genesis, [], 1, false)]
    ensures WellKept(dag.graph, genesis.hash)
    ensures Weighed(dag.graph, map[genesis.hash := 1])
  {
    dag.graph := map[];
    AddToDAG(Vertex(genesis, [], 1, false), dag);
    GenesisAlone(genesis);
  }

  lemma {:induction false} GenesisAlone(genesis: Transaction)
    requires genesis.hash != ZERO && genesis.leftTip == ZERO && genesis.rightTip == ZERO
    ensures var v := Vertex(genesis, [], 1, false);
      var g: Graph := map[genesis.hash := v];
      Added(map[], v) == g && WellKept(g, genesis.hash) && Weighed(g, map[genesis.hash := 1])
  {
    var h, v := genesis.hash, Vertex(genesis, [], 1, false);
    var g: Graph := map[h := v];
    var t := TipsOf(g);
    assert t == map[h := Tips(ZERO, ZERO)];
    assert Insert(map[], v) == g;
    assert Children(t, ZERO, BIT_LEN - 1) == {};
    assert Children(t, h, BIT_LEN) == {ZERO};
    assert Added(map[], v) == g;
    ExtendAcyclic(map[], h, Tips(ZERO, ZERO));
    assert Contributors(t, h) == {};
  }
}
