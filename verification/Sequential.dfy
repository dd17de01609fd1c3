/**
 What the concurrent inserts come to: a handler that runs alone is the sequential insert, a
 vertex is dropped exactly when a tip is missing, and every other one ends up in the graph.
 */
module Sequential {
  import opened Dag
  import opened StorageDag
  import opened ConcurrentInserts
  import opened Settling

  // ----- one handler alone

  ghost predicate ReachesState(s: State, s': State) {
    exists schedule :: Runs(s, schedule, s')
  }

  lemma {:induction false} Then(s: State, mid: State, s': State)
    requires ReachesState(s, mid) && ReachesState(mid, s')
    ensures ReachesState(s, s')
  {
    var first :| Runs(s, first, mid);
    var second :| Runs(mid, second, s');
    RunsThrough(s, first, mid, second, s');
  }

  lemma {:induction false} Step(s: State, a: Action)
    requires Enabled(s, a)
    ensures ReachesState(s, Apply(s, a))
  {
    OneStep(s, a);
  }

  lemma {:induction false} ReadShrinks(t: TipMap, stack: seq<Frame>, children: set<Hash>)
    requires stack != []
    ensures StackCalls(ReadFrame(t, stack, children).stack) < StackCalls(stack)
  {
    var rest, f := stack[..|stack| - 1], stack[|stack| - 1];
    if f.iteration > 0 && f.hash in t {
      var l, r := Frame(t[f.hash].left, f.iteration - 1), Frame(t[f.hash].right, f.iteration - 1);
      var s1, s2 := rest + [r], rest + [r] + [l];
      assert s2[..|s2| - 1] == s1 && s1[..|s1| - 1] == rest && rest + [r, l] == s2;
      assert StackCalls(s2) == StackCalls(rest) + 2 * Calls(f.iteration - 1);
    }
  }

  /** The recursion of getChildren, alone, collects what is left to collect. */
  lemma {:induction false} ReadsAlone(s: State, h: Hash)
    requires h in s.jobs && s.jobs[h].phase.Reading? && FramesKnown(TipsOf(s.graph), s.jobs[h].phase.stack)
    requires Closed(TipsOf(s.graph), TipsOf(s.graph).Keys + {ZERO})
    ensures var t, p := TipsOf(s.graph), s.jobs[h].phase;
      ReachesState(s, SetPhase(s, h, Reading([], p.children + StillToCollect(t, p.stack))))
    decreases StackCalls(s.jobs[h].phase.stack)
  {
    var t, p := TipsOf(s.graph), s.jobs[h].phase;
    var s' := SetPhase(s, h, Reading([], p.children + StillToCollect(t, p.stack)));
    if p.stack == [] {
      assert p.children + {} == p.children && s'.jobs[h] == s.jobs[h];
      assert s'.jobs == s.jobs;
      assert Runs(s, [], s');
    } else {
      ReadKeeps(t, p.stack, p.children);
      ReadShrinks(t, p.stack, p.children);
      Step(s, Read(h));
      var mid := Apply(s, Read(h));
      ReadsAlone(mid, h);
      assert SetPhase(mid, h, s'.jobs[h].phase).jobs == s'.jobs;
      Then(s, mid, s');
    }
  }

  lemma {:induction false} RaiseOneMore(g: Graph, x: Hash, rest: set<Hash>)
    requires x !in rest
    ensures RaiseAll(Raise(g, x), rest) == RaiseAll(g, rest + {x})
  {}

  /** The loop of updateWeightOfChildren, alone, raises what is on the list. */
  lemma {:induction false} BumpsAlone(s: State, h: Hash)
    requires h in s.jobs && s.jobs[h].phase.Raising?
    ensures ReachesState(s, SetPhase(s, h, Raising({})).(graph := RaiseAll(s.graph, s.jobs[h].phase.todo)))
    decreases |s.jobs[h].phase.todo|
  {
    var todo := s.jobs[h].phase.todo;
    var s' := SetPhase(s, h, Raising({})).(graph := RaiseAll(s.graph, todo));
    if todo == {} {
      assert s'.jobs[h] == s.jobs[h];
      assert s'.jobs == s.jobs && s'.graph == s.graph;
      assert Runs(s, [], s');
    } else {
      var x := Pick(todo);
      Step(s, Bump(h, x));
      var mid := Apply(s, Bump(h, x));
      BumpsAlone(mid, h);
      RaiseOneMore(s.graph, x, todo - {x});
      assert todo - {x} + {x} == todo;
      assert SetPhase(mid, h, Raising({})).jobs == s'.jobs;
      Then(s, mid, s');
    }
  }

  /** From a vertex just inserted to the end of its handler. */
  lemma {:induction false} RestAlone(s: State, h: Hash)
    requires h in s.jobs && h in s.graph && s.jobs[h].phase == Reading([Frame(h, BIT_LEN)], {})
    requires Closed(TipsOf(s.graph), TipsOf(s.graph).Keys + {ZERO})
    ensures ReachesState(s, SetPhase(s, h, Finished)
                              .(graph := RaiseAll(s.graph, Children(TipsOf(s.graph), h, BIT_LEN))))
  {
    var t, stack := TipsOf(s.graph), [Frame(h, BIT_LEN)];
    var below := Children(t, h, BIT_LEN);
    assert stack[..0] == [] && StillToCollect(t, stack) == {} + Children(t, h, BIT_LEN);
    ReadsAlone(s, h);
    var read := SetPhase(s, h, Reading([], {} + StillToCollect(t, stack)));
    assert read.jobs[h].phase == Reading([], below);
    Step(read, Collected(h));
    var collected := Apply(read, Collected(h));
    BumpsAlone(collected, h);
    var raised := SetPhase(collected, h, Raising({})).(graph := RaiseAll(s.graph, below));
    Step(raised, Finish(h));
    var s' := SetPhase(s, h, Finished).(graph := RaiseAll(s.graph, below));
    assert Apply(raised, Finish(h)).jobs == s'.jobs;
    Then(s, read, collected);
    Then(s, collected, raised);
    Then(s, raised, s');
  }

  /** The arrival, the tip check and the insertion of a vertex whose tips are there. */
  lemma {:induction false} CommitAlone(s: State, v: Vertex)
    requires Enabled(s, Arrive(v)) && TipsFound(s.graph, v)
    ensures ReachesState(s, State(Insert(s.graph, v),
                                  s.jobs[v.tx.hash := Job(v, Reading([Frame(v.tx.hash, BIT_LEN)], {}))],
                                  s.base[v.tx.hash := v.weight]))
  {
    var h := v.tx.hash;
    Step(s, Arrive(v));
    var arrived := Apply(s, Arrive(v));
    Step(arrived, Verify(h));
    var verified := Apply(arrived, Verify(h));
    Step(verified, Commit(h));
    var committed := Apply(verified, Commit(h));
    assert committed.jobs == s.jobs[h := Job(v, Reading([Frame(h, BIT_LEN)], {}))];
    Then(s, arrived, verified);
    Then(s, verified, committed);
  }

  lemma {:induction false} DropAlone(s: State, v: Vertex)
    requires Enabled(s, Arrive(v)) && !TipsFound(s.graph, v)
    ensures Runs(s, [Arrive(v), Verify(v.tx.hash)], s)
  {
    var h := v.tx.hash;
    var arrived := Apply(s, Arrive(v));
    var actions := [Arrive(v), Verify(h)];
    assert actions[1..] == [Verify(h)] && actions[1..][1..] == [];
    assert arrived.jobs - {h} == s.jobs;
    assert Apply(arrived, Verify(h)) == s;
  }

  lemma {:induction false} CommittedClosed(g: Graph, genesis: Hash, v: Vertex)
    requires WellKept(g, genesis) && Fresh(g, v) && TipsFound(g, v)
    ensures v.tx.hash in Insert(g, v)
    ensures Closed(TipsOf(Insert(g, v)), TipsOf(Insert(g, v)).Keys + {ZERO})
  {
    InsertWellKept(g, genesis, v);
    KnownClosed(Insert(g, v), genesis);
    InsertOwn(g, v);
  }

  /**
   A handler that meets nobody is the sequential one: both tips there, the graph afterwards is that of
   AddToDAG and the job is finished; a tip missing, nothing has changed and no job is left.
   */
  lemma {:induction false} AloneIsSequential(s: State, genesis: Hash, v: Vertex)
    requires Inv(s, genesis) && v.tx.hash !in s.graph && v.tx.hash !in s.jobs
    requires v.tx.hash != ZERO && v.neighbours == [] && v.weight >= 0
    ensures v.tx.leftTip in s.graph && v.tx.rightTip in s.graph ==>
      ReachesState(s, State(Added(s.graph, v), s.jobs[v.tx.hash := Job(v, Finished)],
                            s.base[v.tx.hash := v.weight]))
    ensures v.tx.leftTip !in s.graph || v.tx.rightTip !in s.graph ==>
      Runs(s, [Arrive(v), Verify(v.tx.hash)], s)
  {
    if TipsFound(s.graph, v) {
      AcceptedAlone(s, genesis, v);
    } else {
      DropAlone(s, v);
    }
  }

  lemma {:induction false} AcceptedAlone(s: State, genesis: Hash, v: Vertex)
    requires WellKept(s.graph, genesis) && Enabled(s, Arrive(v)) && TipsFound(s.graph, v)
    ensures ReachesState(s, State(Added(s.graph, v), s.jobs[v.tx.hash := Job(v, Finished)],
                                  s.base[v.tx.hash := v.weight]))
  {
    var h := v.tx.hash;
    CommitAlone(s, v);
    CommittedClosed(s.graph, genesis, v);
    var committed := State(Insert(s.graph, v), s.jobs[h := Job(v, Reading([Frame(h, BIT_LEN)], {}))],
                           s.base[h := v.weight]);
    RestAlone(committed, h);
    var s' := State(Added(s.graph, v), s.jobs[h := Job(v, Finished)], s.base[h := v.weight]);
    assert SetPhase(committed, h, Finished).jobs == s'.jobs;
    Then(s, committed, s');
  }

  // ----- what becomes of an arrival

  /** The tip check drops a job exactly when a tip is missing, lets it insert otherwise, and does no more. */
  lemma {:induction false} VerifyExactly(s: State, h: Hash)
    requires Enabled(s, Verify(h))
    ensures var v, s' := s.jobs[h].vertex, Apply(s, Verify(h));
      && s'.graph == s.graph && s'.base == s.base
      && (h in s'.jobs <==> v.tx.leftTip in s.graph && v.tx.rightTip in s.graph)
      && (h in s'.jobs ==> s'.jobs[h] == Job(v, Inserting))
      && forall k :: k != h ==> (k in s'.jobs <==> k in s.jobs) && (k in s.jobs ==> s'.jobs[k] == s.jobs[k])
  {}

  /** The tip check has accepted h; once it is inserted its transaction stays as it came. */
  ghost predicate Accepted(s: State, h: Hash, v: Vertex) {
    && h in s.jobs && s.jobs[h].vertex == v && !s.jobs[h].phase.Verifying?
    && (s.jobs[h].phase.Inserting? || (h in s.graph && s.graph[h].tx == v.tx))
  }

  lemma {:induction false} AcceptedNext(s: State, a: Action, h: Hash, v: Vertex)
    requires JobsOk(s) && Enabled(s, a) && Accepted(s, h, v)
    ensures Accepted(Apply(s, a), h, v)
  {
    assert JobOk(s.graph, h, s.jobs[h]);
    if a.Commit? {
      assert JobOk(s.graph, a.h, s.jobs[a.h]);
      InsertTx(s.graph, s.jobs[a.h].vertex, h);
    }
  }

  lemma {:induction false} InsertTx(g: Graph, v: Vertex, x: Hash)
    ensures x == v.tx.hash ==> x in Insert(g, v) && Insert(g, v)[x].tx == v.tx
    ensures x in g && x != v.tx.hash ==> x in Insert(g, v) && Insert(g, v)[x].tx == g[x].tx
  {
    InsertOwn(g, v);
    if x in g && x != v.tx.hash {
      InsertKeeps(g, v, x);
    }
  }

  lemma {:induction false} AcceptedLater(s: State, genesis: Hash, schedule: seq<Action>, s': State, h: Hash, v: Vertex)
    requires Inv(s, genesis) && Runs(s, schedule, s') && Accepted(s, h, v)
    ensures Accepted(s', h, v)
    decreases |schedule|
  {
    if schedule != [] {
      AcceptedNext(s, schedule[0], h, v);
      StepKeeps(s, genesis, schedule[0]);
      AcceptedLater(Apply(s, schedule[0]), genesis, schedule[1..], s', h, v);
    }
  }

  /** Once everyone is done, every vertex the tip check accepted is in the graph. */
  lemma {:induction false} AcceptedInserted(s: State, genesis: Hash, schedule: seq<Action>, s': State,
                                            h: Hash, v: Vertex)
    requires Inv(s, genesis) && Runs(s, schedule, s') && Quiescent(s')
    requires h in s.jobs && s.jobs[h] == Job(v, Inserting)
    ensures h in s'.graph && s'.graph[h].tx == v.tx
  {
    AcceptedLater(s, genesis, schedule, s', h, v);
  }

  /** A vertex other than genesis is in the graph only if its job has inserted it. */
  ghost predicate OnlyInserted(s: State, genesis: Hash) {
    forall h :: h in s.graph && h != genesis ==>
      h in s.jobs && !s.jobs[h].phase.Verifying? && !s.jobs[h].phase.Inserting?
  }

  lemma {:induction false} OnlyInsertedNext(s: State, genesis: Hash, a: Action)
    requires JobsOk(s) && Enabled(s, a) && OnlyInserted(s, genesis)
    ensures OnlyInserted(Apply(s, a), genesis)
  {
    var s' := Apply(s, a);
    forall h | h in s'.graph && h != genesis
      ensures h in s'.jobs && !s'.jobs[h].phase.Verifying? && !s'.jobs[h].phase.Inserting?
    {
      OnlyInsertedOne(s, genesis, a, h);
    }
  }

  lemma {:induction false} OnlyInsertedOne(s: State, genesis: Hash, a: Action, h: Hash)
    requires JobsOk(s) && Enabled(s, a) && h in Apply(s, a).graph && h != genesis
    requires h in s.graph ==> h in s.jobs && !s.jobs[h].phase.Verifying? && !s.jobs[h].phase.Inserting?
    ensures var s' := Apply(s, a);
      h in s'.jobs && !s'.jobs[h].phase.Verifying? && !s'.jobs[h].phase.Inserting?
  {
    if a.Commit? {
      assert JobOk(s.graph, a.h, s.jobs[a.h]);
      InsertKeys(s.graph, s.jobs[a.h].vertex);
    }
  }

  lemma {:induction false} InsertKeys(g: Graph, v: Vertex)
    ensures Insert(g, v).Keys == g.Keys + {v.tx.hash}
  {}

  lemma {:induction false} OnlyInsertedLater(s: State, genesis: Hash, schedule: seq<Action>, s': State)
    requires Inv(s, genesis) && Runs(s, schedule, s') && OnlyInserted(s, genesis)
    ensures OnlyInserted(s', genesis)
    decreases |schedule|
  {
    if schedule != [] {
      OnlyInsertedNext(s, genesis, schedule[0]);
      StepKeeps(s, genesis, schedule[0]);
      OnlyInsertedLater(Apply(s, schedule[0]), genesis, schedule[1..], s');
    }
  }

  /** So at rest the graph holds genesis and exactly the vertices that were accepted. */
  lemma {:induction false} QuiescentGraph(genesis: Transaction, s: State)
    requires genesis.hash != ZERO && genesis.leftTip == ZERO && genesis.rightTip == ZERO
    requires Reachable(genesis, s) && Quiescent(s)
    ensures s.graph.Keys == {genesis.hash} + s.jobs.Keys
  {
    var schedule :| Runs(Initial(genesis), schedule, s);
    InitialInv(genesis);
    RunKeeps(Initial(genesis), genesis.hash, schedule, s);
    OnlyInsertedLater(Initial(genesis), genesis.hash, schedule, s);
    forall h | h in s.jobs
      ensures h in s.graph
    {
      assert JobOk(s.graph, h, s.jobs[h]);
    }
  }
}
