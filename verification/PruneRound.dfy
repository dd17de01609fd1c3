/**
 A whole pruning round: scan, compression and check, then the Adam point and its check, with other
 handlers at work between any two lookups.
 */
module PruneRound {
  import opened Go
  import opened Dag
  import opened StorageDag
  import opened Compression
  import opened PruneList
  import opened AdamPoint

  const ADAM_ITERATIONS: nat := 5

  /** The one-element list handed to the second check; an empty Adam point is no key and reaches nothing. */
  function Roots(adam: Option<Hash>): seq<Hash> {
    if adam.Some? then [adam.value] else []
  }

  /** What other handlers keep while a list made over t is in use. */
  ghost function Keeping(genesis: Hash, t: TipMap): Graph -> bool {
    g => Sound(g, genesis) && Extends(t, TipsOf(g))
  }

  /** A lookup of any vertex of that time, or of the zero hash, gives the answer of that time. */
  lemma {:induction false} KeepingFits(genesis: Hash, t: TipMap)
    requires ZERO !in t
    ensures Fits(Keeping(genesis, t), t, t.Keys + {ZERO})
  {}

  /** Vertices that are there reach the same later on. */
  lemma {:induction false} ReachesLater(t: TipMap, t': TipMap, a: Hash, b: Hash)
    requires Closed(t, t.Keys + {ZERO}) && Extends(t, t') && ZERO !in t' && a in t.Keys + {ZERO}
    ensures Reaches(t, a, b) <==> Reaches(t', a, b)
  {
    if n: nat :| Hops(t, a, b, n) {
      HopsExtend(t, t', a, b, n);
    }
    if Reaches(t', a, b) {
      var n: nat :| Hops(t', a, b, n);
      HopsBefore(t, t', a, b, n);
    }
  }

  lemma {:induction false} HopsBefore(t: TipMap, t': TipMap, a: Hash, b: Hash, n: nat)
    requires Closed(t, t.Keys + {ZERO}) && Extends(t, t') && ZERO !in t' && a in t.Keys + {ZERO}
    requires Hops(t', a, b, n)
    ensures Hops(t, a, b, n)
    decreases n
  {
    if n > 0 {
      var next := if Hops(t', t'[a].left, b, n - 1) then t'[a].left else t'[a].right;
      assert Edge(t, a, next);
      HopsBefore(t, t', next, b, n - 1);
    }
  }

  lemma {:induction false} CoversLater(t: TipMap, t': TipMap, roots: set<Hash>, p: set<Hash>)
    requires Closed(t, t.Keys + {ZERO}) && Extends(t, t') && ZERO !in t' && roots <= t.Keys
    ensures Covers(t, roots, p) <==> Covers(t', roots, p)
  {
    forall x | x in p
      ensures Covered(t, roots, x) <==> Covered(t', roots, x)
    {
      forall r | r in roots
        ensures Reaches(t, r, x) <==> Reaches(t', r, x)
      {
        ReachesLater(t, t', r, x);
      }
    }
  }

  lemma {:induction false} CoversSomeLater(t: TipMap, t': TipMap, adam: Hash, list: seq<Hash>)
    requires CoversSome(t, adam, list) && Extends(t, t')
    ensures CoversSome(t', adam, list)
  {
    var h :| h in list && Reaches(t, adam, h);
    var n: nat :| Hops(t, adam, h, n);
    HopsExtend(t, t', adam, h, n);
  }

  /** Five walks were made from every entry, and no vertex occurs in them more often than the Adam point. */
  ghost predicate MostMet(keeps: Graph -> bool, rand: nat -> nat -> nat -> int -> int, list: seq<Hash>,
                          walks: seq<seq<seq<Hash>>>, adam: Option<Hash>)
  {
    && AreAllWalks(keeps, rand, walks, list, 5)
    && (adam.Some? ==> forall x :: Tally(walks, x) <= Tally(walks, adam.value))
  }

  lemma {:induction false} MostVisitedIsMostMet(visits: map<Hash, nat>, walks: seq<seq<seq<Hash>>>, adam: Hash)
    requires CountsAre(visits, walks) && adam in visits && forall x :: x in visits ==> visits[x] <= visits[adam]
    ensures forall x :: Tally(walks, x) <= Tally(walks, adam)
  {
    forall x
      ensures Tally(walks, x) <= Tally(walks, adam)
    {
      assert Seen(visits, x) == Tally(walks, x) && Seen(visits, adam) == Tally(walks, adam);
    }
  }

  /** The walks, over neighbour lists that are true at any time. */
  method FindInSound(dag: DAG, compressed: seq<Hash>, rand: nat -> nat -> nat -> int -> int, ghost genesis: Hash)
    returns (adamPoint: Option<Hash>, panicked: bool, ghost walks: seq<seq<seq<Hash>>>)
    requires forall i, j, k :: IsIntn(rand(i)(j)(k))
    requires Sound(dag.graph, genesis) && Elements(compressed) <= dag.graph.Keys
    modifies dag
    ensures Keeping(genesis, old(TipsOf(dag.graph)))(dag.graph)
    ensures panicked ==> NegativeTotal(Keeping(genesis, old(TipsOf(dag.graph))))
    ensures !panicked ==> (adamPoint.None? <==> compressed == [])
    ensures !panicked ==> MostMet(Keeping(genesis, old(TipsOf(dag.graph))), rand, compressed, walks, adamPoint)
    ensures adamPoint.Some? ==>
      adamPoint.value in dag.graph && CoversSome(TipsOf(dag.graph), adamPoint.value, compressed)
  {
    ghost var keeps := Keeping(genesis, TipsOf(dag.graph));
    ghost var visits;
    adamPoint, panicked, visits, walks := FindAdamPoint(dag, compressed, ADAM_ITERATIONS, rand, keeps);
    ghost var t := TipsOf(dag.graph);
    assert Elements(compressed) <= t.Keys;
    if adamPoint.Some? {
      AdamCoversOne(keeps, t, compressed, adamPoint.value);
      MostVisitedIsMostMet(visits, walks, adamPoint.value);
    }
  }

  /** The second half of GeneratePruneList: the Adam point and the check of it as a list of one. */
  method CheckAdamPoint(dag: DAG, compressed: seq<Hash>, rand: nat -> nat -> nat -> int -> int, ghost genesis: Hash)
    returns (adamPoint: Option<Hash>, adamSuccessful: bool, panicked: bool, ghost walks: seq<seq<seq<Hash>>>)
    requires forall i, j, k :: IsIntn(rand(i)(j)(k))
    requires Sound(dag.graph, genesis) && Elements(compressed) <= dag.graph.Keys
    modifies dag
    ensures Keeping(genesis, old(TipsOf(dag.graph)))(dag.graph)
    ensures panicked ==> NegativeTotal(Keeping(genesis, old(TipsOf(dag.graph))))
    ensures !panicked ==> (adamPoint.None? <==> compressed == [])
    ensures !panicked ==> MostMet(Keeping(genesis, old(TipsOf(dag.graph))), rand, compressed, walks, adamPoint)
    ensures !panicked && adamPoint.Some? ==> CoversSome(TipsOf(dag.graph), adamPoint.value, compressed)
    ensures !panicked ==>
      (adamSuccessful <==> Covers(TipsOf(dag.graph), Elements(Roots(adamPoint)), Elements(compressed)))
  {
    adamPoint, panicked, walks := FindInSound(dag, compressed, rand, genesis);
    if panicked {
      adamSuccessful := false;
      return;
    }
    ghost var t := TipsOf(dag.graph);
    KeepingFits(genesis, t);
    KnownClosed(dag.graph, genesis);
    assert Elements(Roots(adamPoint)) <= t.Keys;
    adamSuccessful := VerifyCompression(dag, compressed, Roots(adamPoint), Keeping(genesis, t), t, t.Keys + {ZERO});
    CoversLater(t, TipsOf(dag.graph), Elements(Roots(adamPoint)), Elements(compressed));
    if adamPoint.Some? {
      CoversSomeLater(t, TipsOf(dag.graph), adamPoint.value, compressed);
    }
  }

  /** The first half: the list of old vertices, its compression and the check of that. */
  method CompressOldOnes(dag: DAG, clock: Hash -> int, ghost genesis: Hash)
    returns (compressed: seq<Hash>, successful: bool)
    requires Sound(dag.graph, genesis)
    modifies dag
    ensures Keeping(genesis, old(TipsOf(dag.graph)))(dag.graph)
    ensures NoRepeats(compressed) && Elements(compressed) <= old(dag.graph).Keys
    ensures Elements(compressed) == Compressed(old(TipsOf(dag.graph)), OldOnes(old(dag.graph), clock))
    ensures successful
  {
    ghost var t, keeps := TipsOf(dag.graph), Keeping(genesis, TipsOf(dag.graph));
    ghost var u := t.Keys + {ZERO};
    KeepingFits(genesis, t);
    KnownClosed(dag.graph, genesis);
    var pruneList := GetTxToBePruned(dag, clock);
    CompressedCovers(t, Elements(pruneList));
    compressed := RemoveChildrenFromPruneList(dag, pruneList, keeps, t, u);
    successful := VerifyCompression(dag, pruneList, compressed, keeps, t, u);
  }

  /**
   One round, with other handlers at work between any two lookups: the compression is exactly that of
   the old vertices of the graph the round began with, and what is said of the Adam point holds of
   the graph at the end.
   */
  method GeneratePruneList(dag: DAG, clock: Hash -> int, rand: nat -> nat -> nat -> int -> int, ghost genesis: Hash)
    returns (compressed: seq<Hash>, successful: bool, adamPoint: Option<Hash>, adamSuccessful: bool, panicked: bool,
             ghost walks: seq<seq<seq<Hash>>>)
    requires Sound(dag.graph, genesis) && forall i, j, k :: IsIntn(rand(i)(j)(k))
    modifies dag
    ensures Sound(dag.graph, genesis) && Extends(old(TipsOf(dag.graph)), TipsOf(dag.graph))
    ensures NoRepeats(compressed)
    ensures Elements(compressed) == Compressed(old(TipsOf(dag.graph)), OldOnes(old(dag.graph), clock))
    ensures successful
    ensures panicked ==> NegativeTotal(Keeping(genesis, old(TipsOf(dag.graph))))
    ensures !panicked ==> (adamPoint.None? <==> compressed == [])
    ensures !panicked ==> MostMet(Keeping(genesis, old(TipsOf(dag.graph))), rand, compressed, walks, adamPoint)
    ensures !panicked && adamPoint.Some? ==> CoversSome(TipsOf(dag.graph), adamPoint.value, compressed)
    ensures !panicked ==>
      (adamSuccessful <==> Covers(TipsOf(dag.graph), Elements(Roots(adamPoint)), Elements(compressed)))
  {
    ghost var t := TipsOf(dag.graph);
    compressed, successful := CompressOldOnes(dag, clock, genesis);
    ghost var t' := TipsOf(dag.graph);
    assert dag.graph.Keys == t'.Keys;
    adamPoint, adamSuccessful, panicked, walks := CheckAdamPoint(dag, compressed, rand, genesis);
    KeepingEarlier(genesis, t, t');
    if panicked {
      NegativeEarlier(Keeping(genesis, t'), Keeping(genesis, t));
    } else {
      MostMetEarlier(Keeping(genesis, t'), Keeping(genesis, t), rand, compressed, walks, adamPoint);
    }
  }

  ghost predicate Implies(keeps': Graph -> bool, keeps: Graph -> bool) {
    forall g :: keeps'(g) ==> keeps(g)
  }

  lemma {:induction false} KeepingEarlier(genesis: Hash, t: TipMap, t': TipMap)
    requires Extends(t, t')
    ensures Implies(Keeping(genesis, t'), Keeping(genesis, t))
  {}

  lemma {:induction false} ReadsEarlier(keeps': Graph -> bool, keeps: Graph -> bool,
                                        hashes: seq<Hash>, weights: seq<int>)
    requires Implies(keeps', keeps) && AllReadWhile(keeps', hashes, weights)
    ensures AllReadWhile(keeps, hashes, weights)
  {
    forall i | 0 <= i < |hashes|
      ensures ReadWhile(keeps, hashes[i], weights[i])
    {
      assert ReadWhile(keeps', hashes[i], weights[i]);
      var g :| ReadsIn(keeps', g, hashes[i], weights[i]);
      assert ReadsIn(keeps, g, hashes[i], weights[i]);
    }
  }

  lemma {:induction false} NegativeEarlier(keeps': Graph -> bool, keeps: Graph -> bool)
    requires Implies(keeps', keeps) && NegativeTotal(keeps')
    ensures NegativeTotal(keeps)
  {
    forall hashes, weights | NegativeReadings(keeps', hashes, weights)
      ensures NegativeReadings(keeps, hashes, weights)
    {
      ReadsEarlier(keeps', keeps, hashes, weights);
    }
  }

  lemma {:induction false} StepEarlier(keeps': Graph -> bool, keeps: Graph -> bool, intn: int -> int, x: Hash, y: Hash)
    requires Implies(keeps', keeps) && StepWhile(keeps', intn, x, y)
    ensures StepWhile(keeps, intn, x, y)
  {
    var g: Graph, weights: seq<int>, i: nat :| PicksIn(keeps', intn, g, x, y, weights, i);
    ReadsEarlier(keeps', keeps, g[x].neighbours, weights);
    assert PicksIn(keeps, intn, g, x, y, weights, i);
  }

  lemma {:induction false} WalkEarlier(keeps': Graph -> bool, keeps: Graph -> bool, rand: nat -> int -> int,
                                       walk: seq<Hash>, start: Hash, len: nat)
    requires Implies(keeps', keeps) && IsWalk(keeps', rand, walk, start, len)
    ensures IsWalk(keeps, rand, walk, start, len)
    decreases len
  {
    if |walk| > 1 {
      StepEarlier(keeps', keeps, rand(len), start, walk[1]);
      WalkEarlier(keeps', keeps, rand, walk[1..], walk[1], len - 1);
    } else if len != 1 {
      var g :| EndsIn(keeps', g, start);
      assert EndsIn(keeps, g, start);
    }
  }

  /** Walks among handlers that keep more are walks among handlers that keep less. */
  lemma {:induction false} MostMetEarlier(keeps': Graph -> bool, keeps: Graph -> bool,
                                          rand: nat -> nat -> nat -> int -> int,
                                          list: seq<Hash>, walks: seq<seq<seq<Hash>>>, adam: Option<Hash>)
    requires Implies(keeps', keeps) && MostMet(keeps', rand, list, walks, adam)
    ensures MostMet(keeps, rand, list, walks, adam)
  {
    forall i | 0 <= i < |list|
      ensures |walks[i]| == 5 && AreWalks(keeps, rand(i), walks[i], list[i])
    {
      assert AreWalks(keeps', rand(i), walks[i], list[i]);
      forall j | 0 <= j < |walks[i]|
        ensures IsWalk(keeps, rand(i)(j), walks[i][j], list[i], BIT_LEN)
      {
        WalkEarlier(keeps', keeps, rand(i)(j), walks[i][j], list[i], BIT_LEN);
      }
    }
  }

  /** The Adam point reaches every entry of the list; with no Adam point there is nothing to reach. */
  ghost predicate AdamReachesAll(t: TipMap, adam: Option<Hash>, list: seq<Hash>) {
    adam.Some? ==> forall x :: x in list ==> Reaches(t, adam.value, x)
  }

  /** The second check reports exactly whether the Adam point alone stands for the list. */
  lemma {:induction false} AdamCheckMeaning(t: TipMap, adam: Option<Hash>, list: seq<Hash>)
    requires adam.None? ==> list == []
    ensures Covers(t, Elements(Roots(adam)), Elements(list)) <==> AdamReachesAll(t, adam, list)
  {
    if adam.Some? {
      assert adam.value in Roots(adam);
      forall x | x in list
        ensures Covered(t, Elements(Roots(adam)), x) <==> Reaches(t, adam.value, x)
      {}
    }
  }

  /** On a cycle compression drops every member and the check fails: acyclicity is needed. */
  lemma {:induction false} CycleFailsCheck()
    ensures var t := map[Hash(1) := Tips(Hash(2), Hash(2)), Hash(2) := Tips(Hash(1), Hash(1))];
      var p := {Hash(1), Hash(2)};
      Compressed(t, p) == {} && !Covers(t, Compressed(t, p), p)
  {
    var t := map[Hash(1) := Tips(Hash(2), Hash(2)), Hash(2) := Tips(Hash(1), Hash(1))];
    var p := {Hash(1), Hash(2)};
    assert Edge(t, Hash(1), Hash(2)) && Edge(t, Hash(2), Hash(1));
    assert Compressed(t, p) == {};
    assert Hash(1) in p && !Covered(t, {}, Hash(1));
  }
}
