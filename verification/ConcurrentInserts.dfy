/**
 Many handlers inserting into one storage-node DAG at once. Every locked section of
 VerifyVertex, AddToDAG, getChildren and updateWeightOfChildren is one step; steps of
 different inserts interleave freely.
 */
module ConcurrentInserts {
  import opened Dag
  import opened StorageDag
  import Compression

  /** A getChildren call that has not read its vertex yet. */
  datatype Frame = Frame(hash: Hash, iteration: nat)

  /** Where the goroutine handling one vertex stands. */
  datatype Phase =
    | Verifying
    | Inserting
    | Reading(stack: seq<Frame>, children: set<Hash>)
    | Raising(todo: set<Hash>)
    | Finished

  datatype Job = Job(vertex: Vertex, phase: Phase)

  /** base remembers the weight each vertex came in with; no step reads it. */
  datatype State = State(graph: Graph, jobs: map<Hash, Job>, base: map<Hash, int>)

  datatype Action =
    | Arrive(vertex: Vertex)
    | Verify(h: Hash)
    | Commit(h: Hash)
    | Read(h: Hash)
    | Collected(h: Hash)
    | Bump(h: Hash, child: Hash)
    | Finish(h: Hash)

  predicate Enabled(s: State, a: Action) {
    match a
    case Arrive(v) => Fresh(s.graph, v) && v.tx.hash !in s.jobs
    case Verify(h) => h in s.jobs && s.jobs[h].phase.Verifying?
    case Commit(h) => h in s.jobs && s.jobs[h].phase.Inserting?
    case Read(h) => h in s.jobs && s.jobs[h].phase.Reading? && s.jobs[h].phase.stack != []
    case Collected(h) => h in s.jobs && s.jobs[h].phase.Reading? && s.jobs[h].phase.stack == []
    case Bump(h, x) => h in s.jobs && s.jobs[h].phase.Raising? && x in s.jobs[h].phase.todo
    case Finish(h) => h in s.jobs && s.jobs[h].phase == Raising({})
  }

  function SetPhase(s: State, h: Hash, p: Phase): State
    requires h in s.jobs
  {
    s.(jobs := s.jobs[h := s.jobs[h].(phase := p)])
  }

  /** One locked read of getChildren: the innermost pending call runs up to its two recursive calls. */
  function ReadFrame(t: TipMap, stack: seq<Frame>, children: set<Hash>): Phase
    requires stack != []
  {
    var rest, f := stack[..|stack| - 1], stack[|stack| - 1];
    if f.iteration == 0 || f.hash !in t then Reading(rest, children)
    else
      var tips := t[f.hash];
      Reading(rest + [Frame(tips.right, f.iteration - 1), Frame(tips.left, f.iteration - 1)],
              children + {tips.left, tips.right})
  }

  function Apply(s: State, a: Action): State
    requires Enabled(s, a)
  {
    match a
    case Arrive(v) => s.(jobs := s.jobs[v.tx.hash := Job(v, Verifying)])
    case Verify(h) =>
      if TipsFound(s.graph, s.jobs[h].vertex) then SetPhase(s, h, Inserting)
      else s.(jobs := s.jobs - {h})
    case Commit(h) =>
      var v := s.jobs[h].vertex;
      SetPhase(s, h, Reading([Frame(h, BIT_LEN)], {}))
        .(graph := Insert(s.graph, v), base := s.base[h := v.weight])
    case Read(h) => SetPhase(s, h, ReadFrame(TipsOf(s.graph), s.jobs[h].phase.stack, s.jobs[h].phase.children))
    case Collected(h) => SetPhase(s, h, Raising(s.jobs[h].phase.children))
    case Bump(h, x) => SetPhase(s, h, Raising(s.jobs[h].phase.todo - {x})).(graph := Raise(s.graph, x))
    case Finish(h) => SetPhase(s, h, Finished)
  }

  /** The schedule as takes s to s'. */
  ghost predicate Runs(s: State, schedule: seq<Action>, s': State)
    decreases |schedule|
  {
    if schedule == [] then s == s'
    else Enabled(s, schedule[0]) && Runs(Apply(s, schedule[0]), schedule[1..], s')
  }

  lemma {:induction false} OneStep(s: State, a: Action)
    requires Enabled(s, a)
    ensures Runs(s, [a], Apply(s, a))
  {
    assert [a][1..] == [];
  }

  lemma {:induction false} RunsThrough(s: State, first: seq<Action>, mid: State, second: seq<Action>, s': State)
    requires Runs(s, first, mid) && Runs(mid, second, s')
    ensures Runs(s, first + second, s')
    decreases |first|
  {
    if first == [] {
      assert first + second == second;
    } else {
      RunsThrough(Apply(s, first[0]), first[1..], mid, second, s');
      assert (first + second)[1..] == first[1..] + second;
    }
  }

  /** The state after InitDag: genesis alone and nobody at work. */
  function Initial(genesis: Transaction): State {
    State(map[genesis.hash := Vertex(genesis, [], 1, false)], map[], map[genesis.hash := 1])
  }

  // ----- the invariant

  /** The increment y owes x has not been applied. */
  predicate Pending(jobs: map<Hash, Job>, y: Hash, x: Hash) {
    y in jobs && !jobs[y].phase.Finished? && (jobs[y].phase.Raising? ==> x in jobs[y].phase.todo)
  }

  /** The vertices whose increment x has received. */
  function Contributed(t: TipMap, jobs: map<Hash, Job>, x: Hash): set<Hash> {
    set y | y in t && x in Children(t, y, BIT_LEN) && !Pending(jobs, y, x)
  }

  function StillToCollect(t: TipMap, stack: seq<Frame>): set<Hash>
    decreases |stack|
  {
    if stack == [] then {}
    else
      var f := stack[|stack| - 1];
      StillToCollect(t, stack[..|stack| - 1]) + Children(t, f.hash, f.iteration)
  }

  ghost predicate FramesKnown(t: TipMap, stack: seq<Frame>) {
    forall i :: 0 <= i < |stack| ==> stack[i].hash in t || stack[i].hash == ZERO
  }

  ghost predicate JobOk(g: Graph, h: Hash, j: Job) {
    && j.vertex.tx.hash == h
    && match j.phase
       case Verifying => Fresh(g, j.vertex)
       case Inserting => Fresh(g, j.vertex) && TipsFound(g, j.vertex)
       case Reading(stack, children) =>
         && h in g && FramesKnown(TipsOf(g), stack)
         && children + StillToCollect(TipsOf(g), stack) == Children(TipsOf(g), h, BIT_LEN)
       case Raising(todo) => h in g && todo <= Children(TipsOf(g), h, BIT_LEN)
       case Finished => h in g
  }

  ghost predicate JobsOk(s: State) {
    forall h :: h in s.jobs ==> JobOk(s.graph, h, s.jobs[h])
  }

  /** The weight of x is its arrival weight plus every increment that is no longer pending. */
  ghost predicate Balanced(g: Graph, jobs: map<Hash, Job>, base: map<Hash, int>, x: Hash) {
    x in g && x in base && g[x].weight == base[x] + |Contributed(TipsOf(g), jobs, x)|
  }

  ghost predicate Conserved(s: State) {
    && s.base.Keys == s.graph.Keys
    && forall x :: x in s.graph ==> Balanced(s.graph, s.jobs, s.base, x)
  }

  ghost predicate Inv(s: State, genesis: Hash) {
    WellKept(s.graph, genesis) && JobsOk(s) && Conserved(s)
  }

  // ----- jobs that do not hold the step

  lemma {:induction false} StackExtend(t: TipMap, h: Hash, tips: Tips, stack: seq<Frame>)
    requires h !in t && h != ZERO && Unreferenced(t, h) && FramesKnown(t, stack)
    ensures StillToCollect(t[h := tips], stack) == StillToCollect(t, stack)
    decreases |stack|
  {
    if stack != [] {
      var f := stack[|stack| - 1];
      StackExtend(t, h, tips, stack[..|stack| - 1]);
      ChildrenExtend(t, h, tips, f.hash, f.iteration);
    }
  }

  /** Another vertex's insert leaves a job as it was. */
  lemma {:induction false} JobOkAfterInsert(g: Graph, genesis: Hash, v: Vertex, h: Hash, j: Job)
    requires WellKept(g, genesis) && TipsFound(g, v) && Fresh(g, v)
    requires JobOk(g, h, j) && h != v.tx.hash
    ensures JobOk(Insert(g, v), h, j)
  {
    var t, tips := TipsOf(g), Tips(v.tx.leftTip, v.tx.rightTip);
    InsertTips(g, v);
    FreshUnreferenced(g, genesis, v.tx.hash);
    assert Insert(g, v).Keys == g.Keys + {v.tx.hash};
    ChildrenExtend(t, v.tx.hash, tips, h, BIT_LEN);
    if j.phase.Reading? {
      StackExtend(t, v.tx.hash, tips, j.phase.stack);
    }
  }

  /** A job sees the graph through its keys and tips only. */
  lemma {:induction false} JobOkSameShape(g: Graph, g': Graph, h: Hash, j: Job)
    requires TipsOf(g') == TipsOf(g) && JobOk(g, h, j)
    ensures JobOk(g', h, j)
  {
    assert g.Keys == TipsOf(g).Keys && g'.Keys == TipsOf(g').Keys;
  }

  // ----- one step at a time

  lemma {:induction false} ReadKeeps(t: TipMap, stack: seq<Frame>, children: set<Hash>)
    requires stack != [] && FramesKnown(t, stack) && Closed(t, t.Keys + {ZERO})
    ensures var p := ReadFrame(t, stack, children);
      && FramesKnown(t, p.stack)
      && p.children + StillToCollect(t, p.stack) == children + StillToCollect(t, stack)
  {
    var rest, f := stack[..|stack| - 1], stack[|stack| - 1];
    if f.iteration > 0 && f.hash in t {
      var l, r := Frame(t[f.hash].left, f.iteration - 1), Frame(t[f.hash].right, f.iteration - 1);
      assert Edge(t, f.hash, l.hash) && Edge(t, f.hash, r.hash);
      var s1, s2 := rest + [r], rest + [r] + [l];
      assert s2[..|s2| - 1] == s1 && s1[..|s1| - 1] == rest;
      assert rest + [r, l] == s2;
      assert StillToCollect(t, s2) ==
        StillToCollect(t, rest) + Children(t, r.hash, r.iteration) + Children(t, l.hash, l.iteration);
    }
  }

  /** A committed vertex owes everybody and is owed by nobody. */
  lemma {:induction false} CommittedCount(t: TipMap, tips: Tips, jobs: map<Hash, Job>, jobs': map<Hash, Job>,
                                          h: Hash, x: Hash)
    requires h !in t && Unreferenced(t, h)
    requires h in jobs' && jobs'[h].phase.Reading? && jobs' == jobs[h := jobs'[h]]
    ensures Contributed(t[h := tips], jobs', x) == if x == h then {} else Contributed(t, jobs, x)
  {
    forall y | y in t
      ensures Children(t[h := tips], y, BIT_LEN) == Children(t, y, BIT_LEN) && h !in Children(t, y, BIT_LEN)
    {
      ChildrenExtend(t, h, tips, y, BIT_LEN);
    }
  }

  lemma {:induction false} CommitBalanced(g: Graph, v: Vertex, jobs: map<Hash, Job>, jobs': map<Hash, Job>,
                                          base: map<Hash, int>, x: Hash)
    requires v.tx.hash !in g && TipsFound(g, v) && Unreferenced(TipsOf(g), v.tx.hash)
    requires v.tx.hash in jobs' && jobs'[v.tx.hash].phase.Reading?
    requires jobs' == jobs[v.tx.hash := jobs'[v.tx.hash]]
    requires x == v.tx.hash || Balanced(g, jobs, base, x)
    ensures Balanced(Insert(g, v), jobs', base[v.tx.hash := v.weight], x)
  {
    var g' := Insert(g, v);
    InsertTips(g, v);
    CommittedCount(TipsOf(g), Tips(v.tx.leftTip, v.tx.rightTip), jobs, jobs', v.tx.hash, x);
    if x == v.tx.hash {
      assert g'[x].weight == v.weight;
    } else {
      InsertKeeps(g, v, x);
    }
  }

  lemma {:induction false} CommitConserves(s: State, s': State, v: Vertex)
    requires Conserved(s) && Fresh(s.graph, v) && TipsFound(s.graph, v) && Unreferenced(TipsOf(s.graph), v.tx.hash)
    requires v.tx.hash in s'.jobs && s'.jobs[v.tx.hash].phase.Reading?
    requires s'.jobs == s.jobs[v.tx.hash := s'.jobs[v.tx.hash]]
    requires s'.graph == Insert(s.graph, v) && s'.base == s.base[v.tx.hash := v.weight]
    ensures Conserved(s')
  {
    assert s'.graph.Keys == s.graph.Keys + {v.tx.hash};
    forall x | x in s'.graph
      ensures Balanced(s'.graph, s'.jobs, s'.base, x)
    {
      assert x == v.tx.hash || Balanced(s.graph, s.jobs, s.base, x);
      CommitBalanced(s.graph, v, s.jobs, s'.jobs, s.base, x);
    }
  }

  lemma {:induction false} CommitJobsOk(s: State, genesis: Hash, h: Hash)
    requires Inv(s, genesis) && Enabled(s, Commit(h))
    ensures JobsOk(Apply(s, Commit(h)))
  {
    var v, s' := s.jobs[h].vertex, Apply(s, Commit(h));
    assert JobOk(s.graph, h, s.jobs[h]);
    forall k | k in s'.jobs
      ensures JobOk(s'.graph, k, s'.jobs[k])
    {
      if k == h {
        var t', stack := TipsOf(s'.graph), [Frame(h, BIT_LEN)];
        assert stack[..0] == [] && stack[0] == Frame(h, BIT_LEN);
        assert StillToCollect(t', stack) == {} + Children(t', h, BIT_LEN);
      } else {
        assert JobOk(s.graph, k, s.jobs[k]);
        JobOkAfterInsert(s.graph, genesis, v, k, s.jobs[k]);
      }
    }
  }

  lemma {:induction false} CommitKeeps(s: State, genesis: Hash, h: Hash)
    requires Inv(s, genesis) && Enabled(s, Commit(h))
    ensures Inv(Apply(s, Commit(h)), genesis)
  {
    assert JobOk(s.graph, h, s.jobs[h]);
    InsertWellKept(s.graph, genesis, s.jobs[h].vertex);
    CommitJobsOk(s, genesis, h);
    FreshUnreferenced(s.graph, genesis, h);
    CommitConserves(s, Apply(s, Commit(h)), s.jobs[h].vertex);
  }

  /** Paying x moves exactly h from the pending to the contributed side, for x only. */
  lemma {:induction false} BumpedCount(t: TipMap, jobs: map<Hash, Job>, jobs': map<Hash, Job>,
                                       h: Hash, x: Hash, z: Hash)
    requires h in t && h in jobs && jobs[h].phase.Raising? && x in jobs[h].phase.todo
    requires x in Children(t, h, BIT_LEN)
    requires jobs' == jobs[h := jobs[h].(phase := Raising(jobs[h].phase.todo - {x}))]
    ensures h !in Contributed(t, jobs, x)
    ensures Contributed(t, jobs', z) == Contributed(t, jobs, z) + (if z == x then {h} else {})
  {}

  lemma {:induction false} BumpKeeps(s: State, genesis: Hash, h: Hash, x: Hash)
    requires Inv(s, genesis) && Enabled(s, Bump(h, x))
    ensures Inv(Apply(s, Bump(h, x)), genesis)
  {
    RaiseWellKept(s.graph, genesis, x);
    BumpJobsOk(s, genesis, h, x);
    BumpConserves(s, h, x);
  }

  lemma {:induction false} BumpConserves(s: State, h: Hash, x: Hash)
    requires JobsOk(s) && Conserved(s) && Enabled(s, Bump(h, x))
    requires TipsOf(Raise(s.graph, x)) == TipsOf(s.graph)
    ensures Conserved(Apply(s, Bump(h, x)))
  {
    var s' := Apply(s, Bump(h, x));
    var t := TipsOf(s.graph);
    assert JobOk(s.graph, h, s.jobs[h]);
    assert s'.graph.Keys == s.graph.Keys;
    forall z | z in s'.graph
      ensures Balanced(s'.graph, s'.jobs, s'.base, z)
    {
      assert Balanced(s.graph, s.jobs, s.base, z);
      BumpedCount(t, s.jobs, s'.jobs, h, x, z);
    }
  }

  lemma {:induction false} BumpJobsOk(s: State, genesis: Hash, h: Hash, x: Hash)
    requires Inv(s, genesis) && Enabled(s, Bump(h, x))
    ensures JobsOk(Apply(s, Bump(h, x)))
  {
    var s' := Apply(s, Bump(h, x));
    RaiseWellKept(s.graph, genesis, x);
    forall k | k in s'.jobs
      ensures JobOk(s'.graph, k, s'.jobs[k])
    {
      assert JobOk(s.graph, k, s.jobs[k]);
      assert JobOk(s.graph, k, s'.jobs[k]);
      JobOkSameShape(s.graph, s'.graph, k, s'.jobs[k]);
    }
  }

  predicate Local(a: Action) {
    !a.Commit? && !a.Bump?
  }

  lemma {:induction false} LocalJobOk(s: State, genesis: Hash, a: Action, k: Hash)
    requires Inv(s, genesis) && Enabled(s, a) && Local(a) && k in Apply(s, a).jobs
    ensures JobOk(s.graph, k, Apply(s, a).jobs[k])
  {
    if k in s.jobs {
      assert JobOk(s.graph, k, s.jobs[k]);
      if a == Read(k) {
        KnownClosed(s.graph, genesis);
        ReadKeeps(TipsOf(s.graph), s.jobs[k].phase.stack, s.jobs[k].phase.children);
      }
    }
  }

  lemma {:induction false} LocalPending(s: State, genesis: Hash, a: Action, y: Hash, x: Hash)
    requires JobsOk(s) && Enabled(s, a) && Local(a)
    requires y in s.graph && x in Children(TipsOf(s.graph), y, BIT_LEN)
    ensures Pending(Apply(s, a).jobs, y, x) == Pending(s.jobs, y, x)
  {
    if y in s.jobs {
      assert JobOk(s.graph, y, s.jobs[y]);
      if a == Collected(y) {
        assert StillToCollect(TipsOf(s.graph), []) == {};
      }
    }
  }

  /** The steps that leave the graph alone. */
  lemma {:induction false} LocalStepKeeps(s: State, genesis: Hash, a: Action)
    requires Inv(s, genesis) && Enabled(s, a) && Local(a)
    ensures Inv(Apply(s, a), genesis)
  {
    var s' := Apply(s, a);
    forall k | k in s'.jobs
      ensures JobOk(s'.graph, k, s'.jobs[k])
    {
      LocalJobOk(s, genesis, a, k);
    }
    LocalConserves(s, genesis, a);
  }

  lemma {:induction false} LocalConserves(s: State, genesis: Hash, a: Action)
    requires Inv(s, genesis) && Enabled(s, a) && Local(a)
    ensures Conserved(Apply(s, a))
  {
    var t, jobs' := TipsOf(s.graph), Apply(s, a).jobs;
    forall x | x in s.graph
      ensures Contributed(t, jobs', x) == Contributed(t, s.jobs, x)
    {
      forall y | y in s.graph && x in Children(t, y, BIT_LEN)
        ensures Pending(jobs', y, x) == Pending(s.jobs, y, x)
      {
        LocalPending(s, genesis, a, y, x);
      }
    }
  }

  lemma {:induction false} StepKeeps(s: State, genesis: Hash, a: Action)
    requires Inv(s, genesis) && Enabled(s, a)
    ensures Inv(Apply(s, a), genesis)
  {
    match a {
      case Commit(h) => CommitKeeps(s, genesis, h);
      case Bump(h, x) => BumpKeeps(s, genesis, h, x);
      case _ => LocalStepKeeps(s, genesis, a);
    }
  }

  // ----- whole runs

  lemma {:induction false} RunKeeps(s: State, genesis: Hash, schedule: seq<Action>, s': State)
    requires Inv(s, genesis) && Runs(s, schedule, s')
    ensures Inv(s', genesis)
    decreases |schedule|
  {
    if schedule != [] {
      StepKeeps(s, genesis, schedule[0]);
      RunKeeps(Apply(s, schedule[0]), genesis, schedule[1..], s');
    }
  }

  ghost predicate Reachable(genesis: Transaction, s: State) {
    exists schedule :: Runs(Initial(genesis), schedule, s)
  }

  lemma {:induction false} InitialInv(genesis: Transaction)
    requires genesis.hash != ZERO && genesis.leftTip == ZERO && genesis.rightTip == ZERO
    ensures Inv(Initial(genesis), genesis.hash)
  {
    GenesisAlone(genesis);
    var s := Initial(genesis);
    assert Contributed(TipsOf(s.graph), s.jobs, genesis.hash) == Contributors(TipsOf(s.graph), genesis.hash);
  }

  /**
   In every state any schedule reaches, each weight is the arrival weight plus the number of
   vertices that reach it by a tip path of length 1 to 16 and whose increment is not pending.
   */
  lemma {:induction false} WeightsConserved(genesis: Transaction, s: State, x: Hash)
    requires genesis.hash != ZERO && genesis.leftTip == ZERO && genesis.rightTip == ZERO
    requires Reachable(genesis, s) && x in s.graph
    ensures WellKept(s.graph, genesis.hash)
    ensures var t := TipsOf(s.graph);
      && x in s.base
      && (forall y :: y in Contributed(t, s.jobs, x) <==>
            y in s.graph && ReachesWithin(t, y, x, BIT_LEN) && !Pending(s.jobs, y, x))
      && s.graph[x].weight == s.base[x] + |Contributed(t, s.jobs, x)|
  {
    var schedule :| Runs(Initial(genesis), schedule, s);
    InitialInv(genesis);
    RunKeeps(Initial(genesis), genesis.hash, schedule, s);
    var t := TipsOf(s.graph);
    forall y
      ensures x in Children(t, y, BIT_LEN) <==> ReachesWithin(t, y, x, BIT_LEN)
    {
      ChildrenAreReached(t, y, BIT_LEN, x);
    }
  }

  predicate Quiescent(s: State) {
    forall h :: h in s.jobs ==> s.jobs[h].phase.Finished?
  }

  /** With nobody at work the weights are the ones sequential inserts would have left. */
  lemma {:induction false} QuiescentWeighed(genesis: Transaction, s: State)
    requires genesis.hash != ZERO && genesis.leftTip == ZERO && genesis.rightTip == ZERO
    requires Reachable(genesis, s) && Quiescent(s)
    ensures Weighed(s.graph, s.base)
  {
    var schedule :| Runs(Initial(genesis), schedule, s);
    InitialInv(genesis);
    RunKeeps(Initial(genesis), genesis.hash, schedule, s);
    forall x | x in s.graph
      ensures Contributed(TipsOf(s.graph), s.jobs, x) == Contributors(TipsOf(s.graph), x)
    {}
  }

  /** Two schedules that bring the same vertices to rest leave the same weights. */
  lemma {:induction false} ScheduleIndependent(genesis: Transaction, s1: State, s2: State, x: Hash)
    requires genesis.hash != ZERO && genesis.leftTip == ZERO && genesis.rightTip == ZERO
    requires Reachable(genesis, s1) && Quiescent(s1) && Reachable(genesis, s2) && Quiescent(s2)
    requires TipsOf(s1.graph) == TipsOf(s2.graph) && s1.base == s2.base
    requires x in s1.graph
    ensures x in s2.graph && s1.graph[x].weight == s2.graph[x].weight
  {
    QuiescentWeighed(genesis, s1);
    QuiescentWeighed(genesis, s2);
    assert x in TipsOf(s1.graph);
  }

  /** After any schedule of verified inserts, compressing any list of hashes passes the check. */
  lemma {:induction false} CompressionSucceeds(genesis: Transaction, s: State, p: set<Hash>)
    requires genesis.hash != ZERO && genesis.leftTip == ZERO && genesis.rightTip == ZERO
    requires Reachable(genesis, s)
    ensures TipsPresent(s.graph, genesis.hash) && Acyclic(TipsOf(s.graph))
    ensures Compression.Covers(TipsOf(s.graph), Compression.Compressed(TipsOf(s.graph), p), p)
  {
    var schedule :| Runs(Initial(genesis), schedule, s);
    InitialInv(genesis);
    RunKeeps(Initial(genesis), genesis.hash, schedule, s);
    Compression.CompressedCovers(TipsOf(s.graph), p);
  }
}
