/**
 The gateway's DAG: collecting the in-graph vertices below a hash, recursively and with a
 stack, raising their weights, inserting, confirming and pruning. A handler releases the lock
 between its sections; `rely` relates the graph a section leaves to any graph other handlers
 may have made of it by the next one. What a handler returns as ghost are the graphs its
 sections found.
 */
module GatewayDag {
  import opened Go
  import opened Dag

  // ----- collecting what lies below a vertex

  /** UpdateWeightsHandler, the recursive collector. It only returns when the graph has no cycle. */
  ghost function UpdateWeightsHandler(g: Graph, h: Hash): map<Hash, Vertex>
    requires Acyclic(TipsOf(g))
    decreases Below(TipsOf(g), h)
  {
    if h !in g then map[]
    else
      var t := TipsOf(g);
      BelowShrinks(t, h, t[h].left);
      BelowShrinks(t, h, t[h].right);
      map[h := g[h]] + UpdateWeightsHandler(g, g[h].tx.leftTip) + UpdateWeightsHandler(g, g[h].tx.rightTip)
  }

  /** The vertices below h with their current values. */
  ghost predicate IsBelow(g: Graph, h: Hash, vertices: map<Hash, Vertex>) {
    && vertices.Keys == Below(TipsOf(g), h)
    && forall x :: x in vertices ==> x in g && vertices[x] == g[x]
  }

  lemma {:induction false} NothingBelowMissing(t: TipMap, h: Hash)
    requires h !in t
    ensures Below(t, h) == {}
  {
    forall x, n: nat | x in t && Hops(t, h, x, n)
      ensures false
    {}
  }

  lemma {:induction false} RecursiveCollectsBelow(g: Graph, h: Hash)
    requires Acyclic(TipsOf(g))
    ensures IsBelow(g, h, UpdateWeightsHandler(g, h))
    decreases Below(TipsOf(g), h)
  {
    var t := TipsOf(g);
    if h !in g {
      NothingBelowMissing(t, h);
    } else {
      BelowShrinks(t, h, t[h].left);
      BelowShrinks(t, h, t[h].right);
      RecursiveCollectsBelow(g, t[h].left);
      RecursiveCollectsBelow(g, t[h].right);
      BelowUnfolds(t, h);
    }
  }

  /** Every in-graph tip of a member of s that is not waiting on the stack is in s. */
  ghost predicate ClosedBut(t: TipMap, s: set<Hash>, stack: seq<Hash>) {
    forall a, b :: a in s && a !in stack && Edge(t, a, b) && b in t ==> b in s
  }

  /** The stack rewrite ends on every graph and collects exactly the vertices below h. */
  method UpdateWeightsHandlerIterative(dag: DAG, h: Hash) returns (vertices: map<Hash, Vertex>)
    ensures IsBelow(dag.graph, h, vertices)
  {
    ghost var t := TipsOf(dag.graph);
    vertices := map[];
    if h !in dag.graph {
      NothingBelowMissing(t, h);
      return;
    }
    vertices := vertices[h := dag.graph[h]];
    var stack := [h];
    ReachesSelf(t, h);
    while |stack| != 0
      invariant h in vertices && vertices.Keys <= Below(t, h)
      invariant forall x :: x in vertices ==> x in dag.graph && vertices[x] == dag.graph[x]
      invariant forall k :: k in stack ==> k in vertices
      invariant ClosedBut(t, vertices.Keys, stack)
      decreases dag.graph.Keys - vertices.Keys, |stack|
    {
      ghost var before, wasStack := vertices.Keys, stack;
      var k := stack[|stack| - 1];
      stack := stack[..|stack| - 1];
      assert forall x :: x in wasStack <==> x in stack || x == k;
      var currVert := dag.graph[k];
      var leftTip, rightTip := currVert.tx.leftTip, currVert.tx.rightTip;
      BelowStep(t, h, k);
      if leftTip !in vertices && leftTip in dag.graph {
        vertices := vertices[leftTip := dag.graph[leftTip]];
        stack := stack + [leftTip];
        assert leftTip in dag.graph.Keys - before && leftTip !in dag.graph.Keys - vertices.Keys;
      }
      if rightTip !in vertices && rightTip in dag.graph {
        stack := stack + [rightTip];
        vertices := vertices[rightTip := dag.graph[rightTip]];
        assert rightTip in dag.graph.Keys - before && rightTip !in dag.graph.Keys - vertices.Keys;
      }
      assert before <= vertices.Keys <= dag.graph.Keys;
    }
    forall x | x in Below(t, h)
      ensures x in vertices
    {
      var n: nat :| Hops(t, h, x, n);
      ClosedBelow(t, vertices.Keys, h, x, n);
    }
  }

  lemma {:induction false} BelowStep(t: TipMap, h: Hash, k: Hash)
    requires k in Below(t, h)
    ensures t[k].left in t ==> t[k].left in Below(t, h)
    ensures t[k].right in t ==> t[k].right in Below(t, h)
  {
    EdgeHop(t, k, t[k].left);
    EdgeHop(t, k, t[k].right);
    ReachesTrans(t, h, k, t[k].left);
    ReachesTrans(t, h, k, t[k].right);
  }

  lemma {:induction false} ClosedBelow(t: TipMap, s: set<Hash>, a: Hash, b: Hash, n: nat)
    requires ClosedBut(t, s, []) && a in s && b in t && Hops(t, a, b, n)
    ensures b in s
    decreases n
  {
    if n > 0 {
      var next := if Hops(t, t[a].left, b, n - 1) then t[a].left else t[a].right;
      assert Edge(t, a, next);
      if n == 1 {
        assert next == b;
      }
      assert next in t;
      ClosedBelow(t, s, next, b, n - 1);
    }
  }

  /** On an acyclic graph the stack rewrite returns what the recursion returns. */
  lemma {:induction false} IterativeRefinesRecursive(g: Graph, h: Hash, vertices: map<Hash, Vertex>)
    requires Acyclic(TipsOf(g))
    ensures IsBelow(g, h, vertices) <==> vertices == UpdateWeightsHandler(g, h)
  {
    RecursiveCollectsBelow(g, h);
  }

  // ----- weights

  method UpdateWeights(dag: DAG, h: Hash)
    modifies dag
    ensures dag.graph == Updated(old(dag.graph), h)
  {
    ghost var g := dag.graph;
    var vertices := UpdateWeightsHandlerIterative(dag, h);
    var rest := vertices.Keys;
    assert dag.graph == RaiseAll(g, vertices.Keys - rest);
    while rest != {}
      invariant rest <= vertices.Keys && dag.graph.Keys == g.Keys
      invariant dag.graph == RaiseAll(g, vertices.Keys - rest)
      decreases rest
    {
      var a :| a in rest;
      rest := rest - {a};
      var v := vertices[a];
      v := v.(weight := v.weight + 1);
      if a !in dag.graph {
        continue;
      }
      dag.graph := dag.graph[a := v];
    }
    assert vertices.Keys - rest == vertices.Keys;
  }

  /** The graph after the increments of UpdateWeights(h). */
  ghost function Updated(g: Graph, h: Hash): Graph {
    RaiseAll(g, Below(TipsOf(g), h))
  }

  /** UpdateWeights raises by one exactly what h reaches, and changes nothing else. */
  lemma {:induction false} UpdatedExactly(g: Graph, h: Hash)
    ensures Updated(g, h).Keys == g.Keys
    ensures forall x :: x in g ==>
      && Updated(g, h)[x].tx == g[x].tx
      && Updated(g, h)[x].neighbours == g[x].neighbours
      && Updated(g, h)[x].confirmed == g[x].confirmed
      && Updated(g, h)[x].weight == if Reaches(TipsOf(g), h, x) then g[x].weight + 1 else g[x].weight
  {
    RaiseAllExactly(g, Below(TipsOf(g), h));
  }

  /** An insertion with its increments and nothing in between. */
  ghost function Inserted(g: Graph, v: Vertex): Graph {
    Updated(Insert(g, v), v.tx.hash)
  }

  /** The locked section of AddVtxToDAG. */
  method InsertVertex(vertex: Vertex, dag: DAG)
    modifies dag
    ensures dag.graph == Insert(old(dag.graph), vertex)
  {
    var hash := vertex.tx.hash;
    dag.graph := dag.graph[hash := vertex];
    var leftTip, rightTip := vertex.tx.leftTip, vertex.tx.rightTip;
    if leftTip in dag.graph {
      var tip := dag.graph[leftTip];
      dag.graph := dag.graph[leftTip := tip.(neighbours := tip.neighbours + [hash])];
    }
    if rightTip in dag.graph && rightTip != leftTip {
      var tip := dag.graph[rightTip];
      dag.graph := dag.graph[rightTip := tip.(neighbours := tip.neighbours + [hash])];
    }
  }

  // ----- confirmation

  function Confirmed(g: Graph, h: Hash): Graph {
    if h in g then g[h := g[h].(confirmed := true)] else g
  }

  /** A confirmation keeps every vertex and all of it but the one flag. */
  lemma {:induction false} ConfirmedExactly(g: Graph, h: Hash)
    ensures Confirmed(g, h).Keys == g.Keys
    ensures forall x :: x in g ==>
      && Confirmed(g, h)[x].tx == g[x].tx
      && Confirmed(g, h)[x].neighbours == g[x].neighbours
      && Confirmed(g, h)[x].weight == g[x].weight
      && (Confirmed(g, h)[x].confirmed <==> g[x].confirmed || x == h)
  {}

  /** Orphan_tx, the vertices whose tips were not found. */
  class Orphans {
    var pool: map<Hash, Vertex>

    constructor ()
      ensures pool == map[]
    {
      pool := map[];
    }
  }

  /**
   An in-graph hash is confirmed under one lock; an orphan leaves its pool and is put, confirmed, into
   the graph `found` that others have left for the second lock. The result says whether the ACK is passed on.
   */
  method HandleTxConfirmation(txHash: Hash, dag: DAG, orphans: Orphans, ghost rely: (Graph, Graph) -> bool)
    returns (forwarded: bool, ghost found: Graph)
    requires forall g :: rely(g, g)
    modifies dag, orphans
    ensures txHash in old(dag.graph) ==>
      && dag.graph == Confirmed(old(dag.graph), txHash) && orphans.pool == old(orphans.pool)
      && (forwarded <==> !old(dag.graph)[txHash].confirmed)
    ensures txHash !in old(dag.graph) && txHash in old(orphans.pool) ==>
      && forwarded && orphans.pool == old(orphans.pool) - {txHash} && rely(old(dag.graph), found)
      && dag.graph == found[txHash := old(orphans.pool)[txHash].(confirmed := true)]
    ensures txHash !in old(dag.graph) && txHash !in old(orphans.pool) ==>
      !forwarded && dag.graph == old(dag.graph) && orphans.pool == old(orphans.pool)
  {
    forwarded, found := false, dag.graph;
    if txHash in dag.graph {
      var vertex := dag.graph[txHash];
      if !vertex.confirmed {
        vertex := vertex.(confirmed := true);
        dag.graph := dag.graph[txHash := vertex];
        forwarded := true;
      }
    } else if txHash in orphans.pool {
      var vertex2 := orphans.pool[txHash];
      orphans.pool := orphans.pool - {txHash};
      OtherHandlers(dag, rely);
      found := dag.graph;
      vertex2 := vertex2.(confirmed := true);
      dag.graph := dag.graph[txHash := vertex2];
      forwarded := true;
    }
  }

  // ----- pruning

  /** Ten minutes in nanoseconds. */
  const THRESHOLD_TIME: int := 10 * 60 * 1_000_000_000

  predicate TooOld(v: Vertex, now: int) {
    Sub64(now, v.tx.timestamp) > THRESHOLD_TIME
  }

  predicate IsCandidate(v: Vertex, threshold: int, now: int) {
    v.confirmed && v.weight >= threshold && TooOld(v, now)
  }

  /** The confirmed, heavy and old vertices of the first scan; clock(h) is the time read at h. */
  ghost function Candidates(g: Graph, threshold: int, clock: Hash -> int): set<Hash> {
    set h | h in g && IsCandidate(g[h], threshold, clock(h))
  }

  ghost function TimedOut(g: Graph, clock: Hash -> int): set<Hash> {
    set h | h in g && !g[h].confirmed && TooOld(g[h], clock(h))
  }

  function Without(g: Graph, s: set<Hash>): Graph {
    map h | h in g && h !in s :: g[h]
  }

  /** A deletion leaves every other vertex as it is. */
  lemma {:induction false} WithoutExactly(g: Graph, s: set<Hash>)
    ensures Without(g, s).Keys == g.Keys - s
    ensures forall x :: x in g && x !in s ==> Without(g, s)[x] == g[x]
  {}

  method ScanCandidates(dag: DAG, threshold: int, clock: Hash -> int) returns (hashArray: seq<Hash>)
    ensures NoRepeats(hashArray) && Elements(hashArray) == Candidates(dag.graph, threshold, clock)
    ensures forall h :: h in hashArray <==>
      && h in dag.graph && dag.graph[h].confirmed && dag.graph[h].weight >= threshold
      && Sub64(clock(h), dag.graph[h].tx.timestamp) > 600_000_000_000
  {
    hashArray := [];
    var rest := dag.graph.Keys;
    while rest != {}
      invariant rest <= dag.graph.Keys && NoRepeats(hashArray) && rest !! Elements(hashArray)
      invariant Elements(hashArray) ==
        set h | h in dag.graph.Keys - rest && IsCandidate(dag.graph[h], threshold, clock(h))
      decreases rest
    {
      var hash :| hash in rest;
      rest := rest - {hash};
      var vertex := dag.graph[hash];
      if vertex.confirmed && vertex.weight >= threshold && TooOld(vertex, clock(hash)) {
        hashArray := hashArray + [hash];
      }
    }
  }

  /** Go's dag.Graph[h].Weight: 0 for a missing key. */
  function WeightRead(g: Graph, h: Hash): int {
    if h in g then g[h].weight else 0
  }

  /** kept may be the result of the minimum search over s in the graph g, which may lack members of s. */
  ghost predicate LightestRead(g: Graph, s: set<Hash>, kept: Hash) {
    kept in s && forall h :: h in s ==> WeightRead(g, kept) <= WeightRead(g, h)
  }

  /** The search for the candidate to keep. */
  method FindLightest(dag: DAG, hashArray: seq<Hash>) returns (minHash: Hash)
    requires hashArray != []
    ensures LightestRead(dag.graph, Elements(hashArray), minHash)
  {
    assert forall j :: 0 <= j < |hashArray| ==> hashArray[j] in Elements(hashArray);
    var min := WeightRead(dag.graph, hashArray[0]);
    minHash := hashArray[0];
    for i := 0 to |hashArray|
      invariant minHash in hashArray && min == WeightRead(dag.graph, minHash)
      invariant forall j :: 0 <= j < i ==> min <= WeightRead(dag.graph, hashArray[j])
    {
      var hash := hashArray[i];
      if WeightRead(dag.graph, hash) < min {
        min := WeightRead(dag.graph, hash);
        minHash := hash;
      }
    }
  }

  /** The loop that deletes every candidate but the lightest. */
  method DeleteOthers(dag: DAG, hashArray: seq<Hash>, minHash: Hash)
    modifies dag
    ensures dag.graph == Without(old(dag.graph), Elements(hashArray) - {minHash})
  {
    ghost var g := dag.graph;
    for i := 0 to |hashArray|
      invariant dag.graph == Without(g, Elements(hashArray[..i]) - {minHash})
    {
      var hash := hashArray[i];
      assert Elements(hashArray[..i + 1]) == Elements(hashArray[..i]) + {hash};
      if hash != minHash {
        dag.graph := Without(dag.graph, {hash});
      }
    }
    assert hashArray[..|hashArray|] == hashArray;
  }

  /** The second scan: unconfirmed vertices past ten minutes. */
  method DeleteTimedOut(dag: DAG, clock: Hash -> int)
    modifies dag
    ensures dag.graph == Without(old(dag.graph), TimedOut(old(dag.graph), clock))
    ensures forall h :: h in dag.graph <==>
      && h in old(dag.graph)
      && (old(dag.graph)[h].confirmed || Sub64(clock(h), old(dag.graph)[h].tx.timestamp) <= 600_000_000_000)
  {
    ghost var g, late := dag.graph, TimedOut(dag.graph, clock);
    var rest := dag.graph.Keys;
    assert late - rest == {};
    while rest != {}
      invariant rest <= dag.graph.Keys
      invariant dag.graph == Without(g, late - rest)
      decreases rest
    {
      var hash :| hash in rest;
      rest := rest - {hash};
      var vertex := dag.graph[hash];
      if !vertex.confirmed && TooOld(vertex, clock(hash)) {
        dag.graph := Without(dag.graph, {hash});
      }
    }
    assert late - rest == late;
  }

  /** The graphs that the deletion and the time-out scan of one Prune found, and the hash it kept. */
  datatype PruneTrace = Idle | Pruned(atDeletion: Graph, kept: Hash, atSweep: Graph)

  /**
   One Prune over the list c of its scan of the graph `scanned`: with at most one candidate nothing at
   all; else the deletion on what others have made of that graph, and the time-out scan on what they
   have made of what the deletion left.
   */
  ghost predicate Prunes(c: set<Hash>, clock: Hash -> int, trace: PruneTrace, rely: (Graph, Graph) -> bool,
                         scanned: Graph, g': Graph)
  {
    if |c| <= 1 then trace.Idle? && g' == scanned
    else
      && trace.Pruned? && LightestRead(trace.atDeletion, c, trace.kept)
      && rely(scanned, trace.atDeletion)
      && rely(Without(trace.atDeletion, c - {trace.kept}), trace.atSweep)
      && g' == Without(trace.atSweep, TimedOut(trace.atSweep, clock))
  }

  method Prune(dag: DAG, threshold: int, clock: Hash -> int, clock2: Hash -> int,
               ghost rely: (Graph, Graph) -> bool)
    returns (ghost trace: PruneTrace)
    requires forall g :: rely(g, g)
    modifies dag
    ensures Prunes(Candidates(old(dag.graph), threshold, clock), clock2, trace, rely, old(dag.graph), dag.graph)
  {
    var hashArray := ScanCandidates(dag, threshold, clock);
    SizeOfElements(hashArray);
    if |hashArray| <= 1 {
      trace := Idle;
      return;
    }
    OtherHandlers(dag, rely);
    ghost var atDeletion := dag.graph;
    var minHash := FindLightest(dag, hashArray);
    DeleteOthers(dag, hashArray, minHash);
    OtherHandlers(dag, rely);
    trace := Pruned(atDeletion, minHash, dag.graph);
    DeleteTimedOut(dag, clock2);
  }

  const PRUNE_THRESHOLD: int := 10

  /**
   AddVtxToDAG from the point where both checks have passed: its insertion, the increments on what
   others have made of that by then, atUpdate, and the Prune that scans what they have made of that,
   atScan.
   */
  method AddVtxToDAG(vertex: Vertex, dag: DAG, clock: Hash -> int, clock2: Hash -> int,
                     ghost rely: (Graph, Graph) -> bool)
    returns (ghost atUpdate: Graph, ghost atScan: Graph, ghost trace: PruneTrace)
    requires forall g :: rely(g, g)
    modifies dag
    ensures rely(Insert(old(dag.graph), vertex), atUpdate)
    ensures rely(Updated(atUpdate, vertex.tx.hash), atScan)
    ensures Prunes(Candidates(atScan, 10, clock), clock2, trace, rely, atScan, dag.graph)
  {
    InsertVertex(vertex, dag);
    OtherHandlers(dag, rely);
    atUpdate := dag.graph;
    UpdateWeights(dag, vertex.tx.hash);
    OtherHandlers(dag, rely);
    atScan := dag.graph;
    trace := Prune(dag, PRUNE_THRESHOLD, clock, clock2, rely);
  }
}
