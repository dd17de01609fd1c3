/**
 What interleaving costs, at the gateway's own threshold: a chain of insertions over genesis, with
 or without the increments of its first vertex still pending, and the prunes it leads to.
 */
module PruneRaces {
  import opened Go
  import opened Dag
  import opened GatewayDag
  import opened GatewaySteps

  const GENESIS := Hash(1)

  /**
   n vertices in a chain over genesis, the hashes up to Hash(c) confirmed; lag is 1 if the
   increments of the first of them are pending.
   */
  ghost predicate IsChain(g: Graph, n: nat, c: nat, lag: nat) {
    && (forall h {:trigger h in g} :: h in g <==> 1 <= h.value <= n + 1)
    && forall h {:trigger h in g} :: h in g ==> InChain(g[h], h, n, c, lag)
  }

  predicate InChain(v: Vertex, h: Hash, n: nat, c: nat, lag: nat)
    requires h.value > 0
  {
    && v.tx.leftTip == v.tx.rightTip == Hash(h.value - 1) && v.tx.timestamp == 0
    && v.weight == (if n + 2 - h.value <= n - lag then n + 2 - h.value else n - lag)
    && (v.confirmed <==> h.value <= c)
  }

  lemma {:induction false} ChainHas(g: Graph, n: nat, c: nat, lag: nat, h: Hash)
    requires IsChain(g, n, c, lag)
    ensures h in g <==> 1 <= h.value <= n + 1
    ensures h in g ==> InChain(g[h], h, n, c, lag)
  {}

  function ChainVertex(n: nat): Vertex {
    Vertex(Transaction(Hash(n + 2), Hash(n + 1), Hash(n + 1), 0), [], 0, false)
  }

  lemma {:induction false} ChainReaches(t: TipMap, top: nat, h: nat)
    requires 1 <= h <= top
    requires forall k: nat :: 1 <= k <= top ==> Hash(k) in t && t[Hash(k)] == Tips(Hash(k - 1), Hash(k - 1))
    ensures Reaches(t, Hash(top), Hash(h))
    decreases top
  {
    if top == h {
      ReachesSelf(t, Hash(top));
    } else {
      ChainReaches(t, top - 1, h);
      EdgeHop(t, Hash(top), Hash(top - 1));
      ReachesTrans(t, Hash(top), Hash(top - 1), Hash(h));
    }
  }

  /** Everything the new vertex is inserted over lies below it. */
  lemma {:induction false} ChainBelow(g: Graph, n: nat, c: nat, lag: nat, h: Hash)
    requires IsChain(g, n, c, lag) && 1 <= h.value <= n + 2
    ensures var g' := Insert(g, ChainVertex(n));
      h in g' && h in Below(TipsOf(g'), Hash(n + 2))
  {
    var v := ChainVertex(n);
    InsertTips(g, v);
    var t, t' := TipsOf(g), TipsOf(Insert(g, v));
    forall k: nat | 1 <= k <= n + 2
      ensures Hash(k) in t' && t'[Hash(k)] == Tips(Hash(k - 1), Hash(k - 1))
    {
      if k < n + 2 {
        ChainHas(g, n, c, lag, Hash(k));
      }
    }
    ChainReaches(t', n + 2, h.value);
    assert h == Hash(h.value);
  }

  /** One more insertion raises the whole chain. */
  lemma {:induction false} ChainGrowsAt(g: Graph, n: nat, c: nat, lag: nat, h: Hash)
    requires IsChain(g, n, c, lag) && c <= n + 1 && lag <= n
    ensures h in Inserted(g, ChainVertex(n)) <==> 1 <= h.value <= n + 2
    ensures 1 <= h.value <= n + 2 ==> InChain(Inserted(g, ChainVertex(n))[h], h, n + 1, c, lag)
  {
    var v := ChainVertex(n);
    var g' := Insert(g, v);
    ChainHas(g, n, c, lag, v.tx.hash);
    InsertShape(g, v);
    RaiseAllShape(g', Below(TipsOf(g'), v.tx.hash));
    ChainHas(g, n, c, lag, h);
    if 1 <= h.value <= n + 2 {
      ChainBelow(g, n, c, lag, h);
      if h.value <= n + 1 {
        InsertKeeps(g, v, h);
      } else {
        assert h == Hash(n + 2);
      }
    }
  }

  lemma {:induction false} ChainGrows(g: Graph, n: nat, c: nat, lag: nat)
    requires IsChain(g, n, c, lag) && c <= n + 1 && lag <= n
    ensures Inserted(g, ChainVertex(n)).Keys == g.Keys + {Hash(n + 2)}
    ensures IsChain(Inserted(g, ChainVertex(n)), n + 1, c, lag)
  {
    var v := ChainVertex(n);
    forall h
      ensures h in Inserted(g, v) <==> 1 <= h.value <= n + 2
      ensures 1 <= h.value <= n + 2 ==> InChain(Inserted(g, v)[h], h, n + 1, c, lag)
    {
      ChainGrowsAt(g, n, c, lag, h);
    }
    ChainHas(g, n, c, lag, v.tx.hash);
    InsertShape(g, v);
    RaiseAllShape(Insert(g, v), Below(TipsOf(Insert(g, v)), v.tx.hash));
  }

  // ----- reaching such a chain

  /** A chain, nobody at work but perhaps the increments of the first vertex, and no other hash seen. */
  ghost predicate ChainState(s: State, n: nat, c: nat, lag: nat) {
    && IsChain(s.graph, n, c, lag) && s.seen == s.graph.Keys
    && s.arriving == map[] && s.prunes == map[] && s.updating == (if lag == 1 then {Hash(2)} else {})
    && Reachable(GENESIS, s)
  }

  lemma {:induction false} ChainStart() returns (s: State)
    ensures s == Initial(GENESIS) && ChainState(s, 0, 1, 0)
  {
    s := Initial(GENESIS);
    assert forall h: Hash {:trigger h in s.graph} :: h in s.graph ==> h == Hash(1);
    assert Runs(s, [], s);
  }

  /** The two lookups and the insertion of the next vertex. */
  lemma {:induction false} ChainCommit(s: State, n: nat, c: nat, lag: nat) returns (s': State)
    requires ChainState(s, n, c, lag)
    ensures Reachable(GENESIS, s')
    ensures s' == s.(graph := Insert(s.graph, ChainVertex(n)), seen := s.seen + {Hash(n + 2)},
                     updating := s.updating + {Hash(n + 2)})
  {
    var v, h := ChainVertex(n), Hash(n + 2);
    ChainHas(s.graph, n, c, lag, h);
    ChainHas(s.graph, n, c, lag, v.tx.leftTip);
    ReachableStep(GENESIS, s, FindLeft(v));
    var s1 := Apply(s, FindLeft(v));
    ReachableStep(GENESIS, s1, FindRight(h));
    var s2 := Apply(s1, FindRight(h));
    ReachableStep(GENESIS, s2, Commit(h));
    s' := Apply(s2, Commit(h));
    assert s'.arriving == map[];
  }

  lemma {:induction false} ChainNext(s: State, n: nat, c: nat, lag: nat) returns (s': State)
    requires ChainState(s, n, c, lag) && c <= n + 1 && lag <= n
    ensures ChainState(s', n + 1, c, lag)
  {
    var s1 := ChainCommit(s, n, c, lag);
    var h := Hash(n + 2);
    ChainHas(s.graph, n, c, lag, h);
    ReachableStep(GENESIS, s1, Update(h));
    s' := Apply(s1, Update(h));
    ChainGrows(s.graph, n, c, lag);
    assert lag == 1 ==> Hash(2) != h;
    assert s'.updating == s.updating;
  }

  /** The first vertex is in, its increments are not. */
  lemma {:induction false} LaggingStart() returns (s: State)
    ensures ChainState(s, 1, 1, 1)
  {
    var s0 := ChainStart();
    s := ChainCommit(s0, 0, 1, 0);
    InsertShape(s0.graph, ChainVertex(0));
    InsertKeeps(s0.graph, ChainVertex(0), GENESIS);
    assert forall h: Hash {:trigger h in s.graph} :: h in s.graph ==> h == Hash(1) || h == Hash(2);
  }

  lemma {:induction false} Chain(n: nat, lag: nat) returns (s: State)
    requires lag <= 1 && lag <= n
    ensures ChainState(s, n, 1, lag)
    decreases n
  {
    if n == lag {
      if lag == 0 {
        s := ChainStart();
      } else {
        s := LaggingStart();
      }
    } else {
      var shorter := Chain(n - 1, lag);
      s := ChainNext(shorter, n - 1, 1, lag);
    }
  }

  lemma {:induction false} ChainConfirm(s: State, n: nat, c: nat, lag: nat) returns (s': State)
    requires ChainState(s, n, c, lag) && c <= n
    ensures ChainState(s', n, c + 1, lag)
  {
    var h := Hash(c + 1);
    ChainHas(s.graph, n, c, lag, h);
    ReachableStep(GENESIS, s, Confirm(h));
    s' := Apply(s, Confirm(h));
    assert forall x: Hash {:trigger x in s.graph} :: x in s.graph && x.value == c + 1 ==> x == h;
  }

  /** No Prune finds a candidate in a shorter chain. */
  lemma {:induction false} ChainHasNoCandidates(g: Graph, n: nat, c: nat, lag: nat, clock: Hash -> int)
    requires IsChain(g, n, c, lag) && n - lag < PRUNE_THRESHOLD
    ensures Candidates(g, PRUNE_THRESHOLD, clock) == {}
  {}

  /** In a chain of ten more than lag, the candidates are the vertices confirmed. */
  lemma {:induction false} ChainCandidate(g: Graph, lag: nat, clock: Hash -> int, h: Hash)
    requires lag <= 1 && IsChain(g, 10 + lag, 2 + lag, lag) && clock == (_ => THRESHOLD_TIME + 1)
    ensures h in Candidates(g, PRUNE_THRESHOLD, clock) <==> 1 <= h.value <= 2 + lag
    ensures 1 <= h.value <= 2 + lag ==> h in g && g[h].weight == 10
  {
    ChainHas(g, 10 + lag, 2 + lag, lag, h);
    if h in g {
      assert TooOld(g[h], clock(h));
    }
  }

  /** Genesis and the one or two vertices over it. */
  function Bottom(lag: nat): set<Hash> {
    if lag == 0 then {Hash(1), Hash(2)} else {Hash(1), Hash(2), Hash(3)}
  }

  lemma {:induction false} BottomValues(lag: nat, h: Hash)
    requires lag <= 1
    ensures h in Bottom(lag) <==> 1 <= h.value <= 2 + lag
  {
    assert h == Hash(h.value);
  }

  lemma {:induction false} ChainCandidates(g: Graph, lag: nat, clock: Hash -> int)
    requires lag <= 1 && IsChain(g, 10 + lag, 2 + lag, lag) && clock == (_ => THRESHOLD_TIME + 1)
    ensures Candidates(g, PRUNE_THRESHOLD, clock) == Bottom(lag)
    ensures forall h :: h in Bottom(lag) ==> h in g && g[h].weight == 10
  {
    forall h
      ensures h in Candidates(g, PRUNE_THRESHOLD, clock) <==> h in Bottom(lag)
      ensures h in Bottom(lag) ==> h in g && g[h].weight == 10
    {
      ChainCandidate(g, lag, clock, h);
      BottomValues(lag, h);
    }
  }

  lemma {:induction false} ChainEdge(g: Graph, n: nat, c: nat, lag: nat, k: nat)
    requires IsChain(g, n, c, lag) && 2 <= k <= n + 1
    ensures Edge(TipsOf(g), Hash(k), Hash(k - 1)) && Reaches(TipsOf(g), Hash(k), Hash(k - 1))
  {
    ChainHas(g, n, c, lag, Hash(k));
    EdgeHop(TipsOf(g), Hash(k), Hash(k - 1));
  }

  // ----- the order

  /**
   Genesis, a vertex over it whose increments wait, and a vertex over that with its increments done:
   the middle one, though not genesis, does not outweigh its approver.
   */
  lemma {:induction false} PendingTipTies() returns (s: State)
    ensures Reachable(GENESIS, s)
    ensures Edge(TipsOf(s.graph), Hash(3), Hash(2)) && Hash(2) in s.graph && Hash(3) in s.graph
    ensures s.graph[Hash(2)].weight == s.graph[Hash(3)].weight == 1
  {
    s := Chain(2, 1);
    ChainHas(s.graph, 2, 1, 1, Hash(2));
    ChainHas(s.graph, 2, 1, 1, Hash(3));
    ChainEdge(s.graph, 2, 1, 1, 3);
  }

  // ----- the prunes

  /** Ten insertions, two or three of the vertices confirmed, and one Prune past its scan. */
  lemma {:induction false} ListedChain(lag: nat) returns (s: State)
    requires lag <= 1
    ensures Reachable(GENESIS, s) && IsChain(s.graph, 10 + lag, 2 + lag, lag)
    ensures s.prunes == map[0 := Listed(Bottom(lag), PRUNE_THRESHOLD)]
    ensures s.updating == if lag == 1 then {Hash(2)} else {}
    ensures forall h :: h in Bottom(lag) ==> h in s.graph && s.graph[h].weight == 10
    ensures Candidates(s.graph, PRUNE_THRESHOLD, _ => THRESHOLD_TIME + 1) == Bottom(lag)
  {
    var s0 := Chain(10 + lag, lag);
    var s1 := ChainConfirm(s0, 10 + lag, 1, lag);
    if lag == 1 {
      s1 := ChainConfirm(s1, 11, 2, 1);
    }
    var clock: Hash -> int := _ => THRESHOLD_TIME + 1;
    ChainCandidates(s1.graph, lag, clock);
    assert |Bottom(lag)| > 1;
    ReachableStep(GENESIS, s1, Scan(0, PRUNE_THRESHOLD, clock));
    s := Apply(s1, Scan(0, PRUNE_THRESHOLD, clock));
  }

  /** Genesis and the vertex above it weigh the same; the deletion may keep genesis and delete the other. */
  lemma {:induction false} GenesisMayBeKept() returns (s: State)
    ensures Reachable(GENESIS, s) && Enabled(s, Delete(0, GENESIS)) && s.prunes[0].threshold == PRUNE_THRESHOLD
    ensures Hash(2) in s.graph && Reaches(TipsOf(s.graph), Hash(2), GENESIS) && s.updating == {}
    ensures var g' := Apply(s, Delete(0, GENESIS)).graph;
      GENESIS in g' && Hash(2) !in g'
  {
    s := ListedChain(0);
    ChainEdge(s.graph, 10, 2, 0, 2);
  }

  /** With increments pending the same can happen to a vertex that is not genesis. */
  lemma {:induction false} PendingMayBeKept() returns (s: State)
    ensures Reachable(GENESIS, s) && Enabled(s, Delete(0, Hash(2))) && s.prunes[0].threshold == PRUNE_THRESHOLD
    ensures Hash(3) in s.graph && Reaches(TipsOf(s.graph), Hash(3), Hash(2))
    ensures var g' := Apply(s, Delete(0, Hash(2))).graph;
      Hash(2) in g' && Hash(3) !in g'
  {
    s := ListedChain(1);
    ChainEdge(s.graph, 11, 3, 1, 3);
  }

  /**
   Two Prunes that scan before either deletes: the second reads weight 0 for what the first has
   deleted, keeps that, and deletes the one candidate the first had left.
   */
  lemma {:induction false} TwoPrunesLoseAll() returns (s: State, s1: State)
    ensures Reachable(GENESIS, s) && s.prunes.Keys == {0, 1}
    ensures s.prunes[0] == s.prunes[1] == Listed({Hash(1), Hash(2)}, PRUNE_THRESHOLD)
    ensures Hash(1) in s.graph && Hash(2) in s.graph
    ensures Enabled(s, Delete(0, Hash(2))) && s1 == Apply(s, Delete(0, Hash(2))) && Hash(2) in s1.graph
    ensures Enabled(s1, Delete(1, Hash(1)))
    ensures var g' := Apply(s1, Delete(1, Hash(1))).graph;
      Hash(1) !in g' && Hash(2) !in g'
  {
    var s0 := ListedChain(0);
    var clock: Hash -> int := _ => THRESHOLD_TIME + 1;
    ReachableStep(GENESIS, s0, Scan(1, PRUNE_THRESHOLD, clock));
    s := Apply(s0, Scan(1, PRUNE_THRESHOLD, clock));
    s1 := Apply(s, Delete(0, Hash(2)));
  }
}
