/**
 The gateway's handlers one after the other: whole insertions, confirmations and prunes. Every
 such run is a schedule of the locked sections, so what holds of all schedules holds of it, and
 with nobody at work only genesis is left as an exception.
 */
module WeightOrder {
  import opened Go
  import opened Dag
  import opened GatewayDag
  import Steps = GatewaySteps

  /** seen holds every hash ever inserted, pruned or not. */
  datatype State = State(graph: Graph, seen: set<Hash>)

  /** The arrivals considered: a hash never seen, weight 0, both tips in the graph. */
  predicate Insertable(s: State, v: Vertex) {
    && v.tx.hash !in s.seen && v.tx.hash != ZERO && v.weight == 0
    && v.tx.leftTip in s.graph && v.tx.rightTip in s.graph
  }

  ghost predicate InsertNext(s: State, v: Vertex, s': State) {
    Insertable(s, v) && s' == State(Inserted(s.graph, v), s.seen + {v.tx.hash})
  }

  ghost predicate ConfirmNext(s: State, h: Hash, s': State) {
    s' == s.(graph := Confirmed(s.graph, h))
  }

  /** A least heavy candidate. */
  ghost predicate Lightest(g: Graph, s: set<Hash>, kept: Hash) {
    s <= g.Keys && LightestRead(g, s, kept)
  }

  /**
   What Prune may leave when nobody interferes: nothing changes, or all candidates but a lightest
   one go, and the timed-out vertices.
   */
  ghost predicate PruneStep(g: Graph, g': Graph, threshold: int, clock: Hash -> int, clock2: Hash -> int,
                            kept: Option<Hash>)
  {
    var c := Candidates(g, threshold, clock);
    if |c| <= 1 then g' == g && kept.None?
    else
      && kept.Some? && Lightest(g, c, kept.value)
      && g' == Without(g, (c - {kept.value}) + TimedOut(g, clock2))
  }

  /** Candidates are confirmed, so deleting them first does not change which vertices time out. */
  lemma {:induction false} WithoutTwice(g: Graph, s: set<Hash>, clock: Hash -> int)
    requires forall h :: h in s ==> h in g && g[h].confirmed
    ensures Without(Without(g, s), TimedOut(Without(g, s), clock)) == Without(g, s + TimedOut(g, clock))
  {
    assert TimedOut(Without(g, s), clock) == TimedOut(g, clock);
  }

  /** The Prune of the source, if its sections find the graph as they left it. */
  lemma {:induction false} QuietPrune(g: Graph, g': Graph, threshold: int, clock: Hash -> int, clock2: Hash -> int,
                                      trace: PruneTrace)
    requires Prunes(Candidates(g, threshold, clock), clock2, trace, (a, b) => a == b, g, g')
    ensures PruneStep(g, g', threshold, clock, clock2, if trace.Pruned? then Some(trace.kept) else None)
  {
    if trace.Pruned? {
      WithoutTwice(g, Candidates(g, threshold, clock) - {trace.kept}, clock2);
    }
  }

  /** AddVtxToDAG with nobody else at work: an insertion with its increments, and one such Prune. */
  method AddVtxAlone(vertex: Vertex, dag: DAG, clock: Hash -> int, clock2: Hash -> int)
    returns (ghost kept: Option<Hash>)
    modifies dag
    ensures PruneStep(Inserted(old(dag.graph), vertex), dag.graph, 10, clock, clock2, kept)
  {
    ghost var atUpdate, atScan, trace;
    atUpdate, atScan, trace := AddVtxToDAG(vertex, dag, clock, clock2, (a, b) => a == b);
    QuietPrune(atScan, dag.graph, PRUNE_THRESHOLD, clock, clock2, trace);
    kept := if trace.Pruned? then Some(trace.kept) else None;
  }

  ghost predicate PruneNext(s: State, threshold: int, clock: Hash -> int, clock2: Hash -> int,
                            kept: Option<Hash>, s': State)
  {
    s'.seen == s.seen && PruneStep(s.graph, s'.graph, threshold, clock, clock2, kept)
  }

  ghost predicate Next(s: State, s': State) {
    || (exists v :: InsertNext(s, v, s'))
    || (exists h :: ConfirmNext(s, h, s'))
    || (exists threshold, clock, clock2, kept :: PruneNext(s, threshold, clock, clock2, kept, s'))
  }

  /** After InitDag and AddToDAG of genesis. */
  ghost predicate Init(s: State, genesis: Hash) {
    && genesis != ZERO && s.seen == {genesis}
    && s.graph == map[genesis := Vertex(Transaction(genesis, ZERO, ZERO, 0), [], 0, true)]
  }

  ghost predicate IsRun(run: seq<State>, genesis: Hash) {
    run != [] && Init(run[0], genesis) && forall i :: 0 < i < |run| ==> Next(run[i - 1], run[i])
  }

  // ----- each handler is a schedule

  /** Nobody at work. */
  function AtRest(s: State): Steps.State {
    Steps.State(s.graph, s.seen, map[], {}, map[])
  }

  lemma {:induction false} TwoSteps(s: Steps.State, a: Steps.Action, b: Steps.Action)
    requires Steps.Enabled(s, a) && Steps.Enabled(Steps.Apply(s, a), b)
    ensures Steps.Runs(s, [a, b], Steps.Apply(Steps.Apply(s, a), b))
  {
    Steps.OneStep(s, a);
    Steps.OneStep(Steps.Apply(s, a), b);
    Steps.RunsThrough(s, [a], Steps.Apply(s, a), [b], Steps.Apply(Steps.Apply(s, a), b));
    assert [a] + [b] == [a, b];
  }

  lemma {:induction false} InsertIsSchedule(s: State, v: Vertex, s': State)
    requires InsertNext(s, v, s')
    ensures exists schedule :: Steps.Runs(AtRest(s), schedule, AtRest(s'))
  {
    var h := v.tx.hash;
    var s0 := AtRest(s);
    var s1 := Steps.Apply(s0, Steps.FindLeft(v));
    var s2 := Steps.Apply(s1, Steps.FindRight(h));
    var s3 := Steps.Apply(s2, Steps.Commit(h));
    assert s2.arriving - {h} == map[];
    var s4 := Steps.Apply(s3, Steps.Update(h));
    assert s4 == AtRest(s');
    TwoSteps(s0, Steps.FindLeft(v), Steps.FindRight(h));
    TwoSteps(s2, Steps.Commit(h), Steps.Update(h));
    Steps.RunsThrough(s0, [Steps.FindLeft(v), Steps.FindRight(h)], s2, [Steps.Commit(h), Steps.Update(h)], s4);
  }

  lemma {:induction false} PruneIsSchedule(s: State, threshold: int, clock: Hash -> int, clock2: Hash -> int,
                                           kept: Option<Hash>, s': State)
    requires PruneNext(s, threshold, clock, clock2, kept, s')
    ensures exists schedule :: Steps.Runs(AtRest(s), schedule, AtRest(s'))
  {
    var c := Candidates(s.graph, threshold, clock);
    var s0 := AtRest(s);
    if |c| <= 1 {
      assert Steps.Runs(s0, [], AtRest(s'));
    } else {
      var scan, del, sweep := Steps.Scan(0, threshold, clock), Steps.Delete(0, kept.value), Steps.Sweep(0, clock2);
      var s1 := Steps.Apply(s0, scan);
      var s2 := Steps.Apply(s1, del);
      var s3 := Steps.Apply(s2, sweep);
      WithoutTwice(s.graph, c - {kept.value}, clock2);
      assert s2.prunes - {0} == map[];
      assert s3 == AtRest(s');
      TwoSteps(s0, scan, del);
      Steps.OneStep(s2, sweep);
      Steps.RunsThrough(s0, [scan, del], s2, [sweep], s3);
    }
  }

  lemma {:induction false} NextIsSchedule(s: State, s': State)
    requires Next(s, s')
    ensures exists schedule :: Steps.Runs(AtRest(s), schedule, AtRest(s'))
  {
    if v :| InsertNext(s, v, s') {
      InsertIsSchedule(s, v, s');
    } else if h :| ConfirmNext(s, h, s') {
      assert Steps.Apply(AtRest(s), Steps.Confirm(h)) == AtRest(s');
      Steps.OneStep(AtRest(s), Steps.Confirm(h));
    } else {
      var threshold, clock, clock2, kept :| PruneNext(s, threshold, clock, clock2, kept, s');
      PruneIsSchedule(s, threshold, clock, clock2, kept, s');
    }
  }

  /** Every state of a run of whole handlers is reached by a schedule of their sections. */
  lemma {:induction false} RunIsSchedule(run: seq<State>, genesis: Hash, i: nat)
    requires IsRun(run, genesis) && i < |run|
    ensures genesis != ZERO && Steps.Reachable(genesis, AtRest(run[i]))
    decreases i
  {
    if i == 0 {
      assert Steps.Runs(Steps.Initial(genesis), [], AtRest(run[0]));
    } else {
      RunIsSchedule(run, genesis, i - 1);
      NextIsSchedule(run[i - 1], run[i]);
      var before :| Steps.Runs(Steps.Initial(genesis), before, AtRest(run[i - 1]));
      var step :| Steps.Runs(AtRest(run[i - 1]), step, AtRest(run[i]));
      Steps.RunsThrough(Steps.Initial(genesis), before, AtRest(run[i - 1]), step, AtRest(run[i]));
    }
  }

  // ----- what follows for whole handlers

  /** In every state of such a run an in-graph tip weighs more than its approver. */
  lemma {:induction false} TipsOutweighApprovers(run: seq<State>, genesis: Hash, i: nat, a: Hash, b: Hash)
    requires IsRun(run, genesis) && i < |run|
    requires Edge(TipsOf(run[i].graph), a, b) && b in run[i].graph
    ensures a in run[i].graph
    ensures b != genesis ==> run[i].graph[b].weight > run[i].graph[a].weight
    ensures b == genesis ==> run[i].graph[b].weight >= run[i].graph[a].weight
  {
    RunIsSchedule(run, genesis, i);
    Steps.TipsOutweighApprovers(genesis, AtRest(run[i]), a, b);
  }

  /** The weight order rules out cycles. */
  lemma {:induction false} RunAcyclic(run: seq<State>, genesis: Hash, i: nat)
    requires IsRun(run, genesis) && i < |run|
    ensures Acyclic(TipsOf(run[i].graph))
  {
    RunIsSchedule(run, genesis, i);
    Steps.ReachableInv(genesis, AtRest(run[i]));
  }

  /** Only genesis can be a lightest candidate another candidate reaches, and then on equal weight. */
  lemma {:induction false} KeptNotBelowDeleted(run: seq<State>, genesis: Hash, i: nat,
                                               c: set<Hash>, kept: Hash, d: Hash)
    requires IsRun(run, genesis) && i < |run| && Lightest(run[i].graph, c, kept)
    requires d in c && d != kept && Reaches(TipsOf(run[i].graph), d, kept)
    ensures kept == genesis && run[i].graph[d].weight == run[i].graph[genesis].weight
  {
    RunIsSchedule(run, genesis, i);
    Steps.ReachableInv(genesis, AtRest(run[i]));
    Steps.KeptIsUnsettled(genesis, AtRest(run[i]), c, kept, d);
  }

  /** A candidate above genesis that weighs no more than it. */
  ghost predicate TiesWithGenesis(g: Graph, c: set<Hash>, genesis: Hash, d: Hash)
    requires genesis in g && c <= g.Keys
  {
    d in c && d != genesis && g[d].weight == g[genesis].weight && Reaches(TipsOf(g), d, genesis)
  }

  /** Prune can then keep a vertex below one it deletes exactly when genesis is a lightest candidate and ties. */
  lemma {:induction false} KeptBelowExactly(run: seq<State>, genesis: Hash, i: nat, threshold: int, clock: Hash -> int)
    requires IsRun(run, genesis) && i < |run|
    ensures var g := run[i].graph; var c := Candidates(g, threshold, clock);
      (exists kept, d :: Steps.KeptBelow(g, c, kept, d)) <==>
      Lightest(g, c, genesis) && exists d :: TiesWithGenesis(g, c, genesis, d)
  {
    var g := run[i].graph;
    var c := Candidates(g, threshold, clock);
    if kept, d :| Steps.KeptBelow(g, c, kept, d) {
      KeptNotBelowDeleted(run, genesis, i, c, kept, d);
      assert TiesWithGenesis(g, c, genesis, d);
    }
    if Lightest(g, c, genesis) {
      if d :| TiesWithGenesis(g, c, genesis, d) {
        assert Steps.KeptBelow(g, c, genesis, d);
      }
    }
  }

  /**
   A Prune that deletes anything leaves exactly one candidate of the first scan; a deleted
   candidate reached it only if it is genesis and they weighed the same.
   */
  lemma {:induction false} PruneKeepsAnchor(run: seq<State>, genesis: Hash, i: nat, threshold: int,
                                            clock: Hash -> int, clock2: Hash -> int, kept: Hash, d: Hash)
    requires IsRun(run, genesis) && i + 1 < |run|
    requires PruneNext(run[i], threshold, clock, clock2, Some(kept), run[i + 1])
    requires d in Candidates(run[i].graph, threshold, clock)
    ensures kept in run[i + 1].graph && (d in run[i + 1].graph <==> d == kept)
    ensures d != kept && Reaches(TipsOf(run[i].graph), d, kept) ==>
      kept == genesis && run[i].graph[d].weight == run[i].graph[genesis].weight
  {
    if d != kept && Reaches(TipsOf(run[i].graph), d, kept) {
      KeptNotBelowDeleted(run, genesis, i, Candidates(run[i].graph, threshold, clock), kept, d);
    }
  }
}
