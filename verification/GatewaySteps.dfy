/**
 The gateway's handlers at the granularity of its lock. One goroutine per message: the two tip
 lookups, the insertion and the increments of one vertex are separate steps, and so are the
 scan, the deletion and the time-out scan of a Prune; steps of different handlers interleave.
 */
module GatewaySteps {
  import opened Go
  import opened Dag
  import opened GatewayDag

  /** A vertex whose left tip has been found, and maybe its right one. */
  datatype Arrival = Arrival(vertex: Vertex, rightFound: bool)

  /** A Prune past its scan: the list and the threshold it was made with, or past the deletion. */
  datatype Pruning = Listed(hashes: set<Hash>, threshold: int) | Sweeping

  /**
   seen holds every hash ever inserted, deleted or not; updating those whose UpdateWeights
   has not run yet.
   */
  datatype State = State(graph: Graph, seen: set<Hash>, arriving: map<Hash, Arrival>,
                         updating: set<Hash>, prunes: map<nat, Pruning>)

  datatype Action =
    | FindLeft(vertex: Vertex)
    | FindRight(h: Hash)
    | Commit(h: Hash)
    | Update(h: Hash)
    | Confirm(h: Hash)
    | Scan(id: nat, threshold: int, clock: Hash -> int)
    | Delete(id: nat, kept: Hash)
    | Sweep(id: nat, clock: Hash -> int)

  ghost predicate Enabled(s: State, a: Action) {
    match a
    case FindLeft(v) =>
      && v.tx.hash !in s.seen && v.tx.hash !in s.arriving && v.tx.hash != ZERO && v.weight == 0
      && v.tx.leftTip in s.graph
    case FindRight(h) => h in s.arriving && s.arriving[h].vertex.tx.rightTip in s.graph
    case Commit(h) => h in s.arriving && s.arriving[h].rightFound
    case Update(h) => h in s.updating
    case Confirm(h) => true
    case Scan(id, threshold, clock) => id !in s.prunes
    case Delete(id, kept) => id in s.prunes && s.prunes[id].Listed? && LightestRead(s.graph, s.prunes[id].hashes, kept)
    case Sweep(id, clock) => id in s.prunes && s.prunes[id].Sweeping?
  }

  ghost function Apply(s: State, a: Action): State
    requires Enabled(s, a)
  {
    match a
    case FindLeft(v) => s.(arriving := s.arriving[v.tx.hash := Arrival(v, false)])
    case FindRight(h) => s.(arriving := s.arriving[h := s.arriving[h].(rightFound := true)])
    case Commit(h) =>
      s.(graph := Insert(s.graph, s.arriving[h].vertex), seen := s.seen + {h},
         arriving := s.arriving - {h}, updating := s.updating + {h})
    case Update(h) => s.(graph := Updated(s.graph, h), updating := s.updating - {h})
    case Confirm(h) => s.(graph := Confirmed(s.graph, h))
    case Scan(id, threshold, clock) =>
      var c := Candidates(s.graph, threshold, clock);
      if |c| <= 1 then s else s.(prunes := s.prunes[id := Listed(c, threshold)])
    case Delete(id, kept) =>
      s.(graph := Without(s.graph, s.prunes[id].hashes - {kept}), prunes := s.prunes[id := Sweeping])
    case Sweep(id, clock) =>
      s.(graph := Without(s.graph, TimedOut(s.graph, clock)), prunes := s.prunes - {id})
  }

  /** A scan lists the confirmed, heavy and old vertices if there are two at least, and changes nothing else. */
  lemma {:induction false} ScanExactly(s: State, id: nat, threshold: int, clock: Hash -> int, c: set<Hash>)
    requires Enabled(s, Scan(id, threshold, clock))
    requires forall h :: h in c <==>
      && h in s.graph && s.graph[h].confirmed && s.graph[h].weight >= threshold
      && Sub64(clock(h), s.graph[h].tx.timestamp) > 600_000_000_000
    ensures Apply(s, Scan(id, threshold, clock)) ==
      if |c| > 1 then State(s.graph, s.seen, s.arriving, s.updating, s.prunes[id := Listed(c, threshold)]) else s
  {
    assert c == Candidates(s.graph, threshold, clock);
  }

  /** A deletion takes what is listed but the one hash it keeps. */
  lemma {:induction false} DeleteExactly(s: State, id: nat, kept: Hash)
    requires Enabled(s, Delete(id, kept))
    ensures var g' := Apply(s, Delete(id, kept)).graph;
      && (forall h :: h in g' <==> h in s.graph && (h == kept || h !in s.prunes[id].hashes))
      && forall h :: h in g' ==> g'[h] == s.graph[h]
  {}

  /** A time-out scan takes what is unconfirmed and old. */
  lemma {:induction false} SweepExactly(s: State, id: nat, clock: Hash -> int)
    requires Enabled(s, Sweep(id, clock))
    ensures var g' := Apply(s, Sweep(id, clock)).graph;
      && (forall h :: h in g' <==>
            && h in s.graph
            && (s.graph[h].confirmed || Sub64(clock(h), s.graph[h].tx.timestamp) <= 600_000_000_000))
      && forall h :: h in g' ==> g'[h] == s.graph[h]
  {}

  /** The schedule takes s to s'. */
  ghost predicate Runs(s: State, schedule: seq<Action>, s': State)
    decreases |schedule|
  {
    if schedule == [] then s' == s
    else Enabled(s, schedule[0]) && Runs(Apply(s, schedule[0]), schedule[1..], s')
  }

  /** After InitDag and AddToDAG of genesis. */
  function Initial(genesis: Hash): State {
    State(map[genesis := Vertex(Transaction(genesis, ZERO, ZERO, 0), [], 0, true)], {genesis}, map[], {}, map[])
  }

  ghost predicate Reachable(genesis: Hash, s: State) {
    exists schedule :: Runs(Initial(genesis), schedule, s)
  }

  lemma {:induction false} RunsThrough(s: State, first: seq<Action>, mid: State, second: seq<Action>, s': State)
    requires Runs(s, first, mid) && Runs(mid, second, s')
    ensures Runs(s, first + second, s')
    decreases |first|
  {
    if first == [] {
      assert first + second == second;
    } else {
      RunsThrough(Apply(s, first[0]), first[1..], mid, second, s');
      assert (first + second)[1..] == first[1..] + second;
    }
  }

  lemma {:induction false} OneStep(s: State, a: Action)
    requires Enabled(s, a)
    ensures Runs(s, [a], Apply(s, a))
  {
    assert [a][1..] == [];
  }

  lemma {:induction false} ReachableStep(genesis: Hash, s: State, a: Action)
    requires Reachable(genesis, s) && Enabled(s, a)
    ensures Reachable(genesis, Apply(s, a))
  {
    var schedule :| Runs(Initial(genesis), schedule, s);
    OneStep(s, a);
    RunsThrough(Initial(genesis), schedule, s, [a], Apply(s, a));
  }

  // ----- the invariant

  /** The increments of b itself are behind it; genesis never has any. */
  predicate Settled(updating: set<Hash>, genesis: Hash, b: Hash) {
    b != genesis && b !in updating
  }

  /** b weighs at least what its approver a weighs, and more once it is settled. */
  predicate Outweighs(g: Graph, updating: set<Hash>, genesis: Hash, b: Hash, a: Hash)
    requires a in g && b in g
  {
    g[b].weight >= g[a].weight && (Settled(updating, genesis, b) ==> g[b].weight > g[a].weight)
  }

  ghost predicate EdgesOrdered(g: Graph, updating: set<Hash>, genesis: Hash) {
    forall a, b :: Edge(TipsOf(g), a, b) && b in g ==> a in g && Outweighs(g, updating, genesis, b, a)
  }

  ghost predicate Weights(g: Graph, updating: set<Hash>, genesis: Hash) {
    forall h :: h in g ==> g[h].weight >= if Settled(updating, genesis, h) then 1 else 0
  }

  ghost predicate TipsSeen(g: Graph, seen: set<Hash>) {
    forall a, b :: Edge(TipsOf(g), a, b) ==> b in seen || b == ZERO
  }

  ghost predicate Shape(g: Graph, seen: set<Hash>) {
    g.Keys <= seen && ZERO !in seen && TipsSeen(g, seen) && Acyclic(TipsOf(g))
  }

  /** An arriving vertex is new and blank, and the tips found so far were in the graph once. */
  ghost predicate ArrivalOk(seen: set<Hash>, h: Hash, a: Arrival) {
    && a.vertex.tx.hash == h && h !in seen && h != ZERO && a.vertex.weight == 0
    && a.vertex.tx.leftTip in seen && (a.rightFound ==> a.vertex.tx.rightTip in seen)
  }

  /** What is still in the graph of a list has not lost weight since the scan. */
  ghost predicate ListOk(g: Graph, seen: set<Hash>, p: Pruning) {
    p.Listed? ==> p.hashes <= seen && forall h :: h in p.hashes && h in g ==> g[h].weight >= p.threshold
  }

  ghost predicate Inv(s: State, genesis: Hash) {
    && Shape(s.graph, s.seen) && genesis in s.seen && genesis !in s.updating && s.updating <= s.seen
    && Weights(s.graph, s.updating, genesis) && EdgesOrdered(s.graph, s.updating, genesis)
    && (forall h :: h in s.arriving ==> ArrivalOk(s.seen, h, s.arriving[h]))
    && forall id :: id in s.prunes ==> ListOk(s.graph, s.seen, s.prunes[id])
  }

  // ----- insertion

  lemma {:induction false} InsertShape(g: Graph, v: Vertex)
    requires v.tx.hash !in g && v.tx.leftTip != v.tx.hash && v.tx.rightTip != v.tx.hash
    ensures Insert(g, v).Keys == g.Keys + {v.tx.hash}
    ensures Insert(g, v)[v.tx.hash] == v
    ensures forall x :: x in g ==> Insert(g, v)[x].weight == g[x].weight
  {
    forall x | x in g
      ensures x in Insert(g, v) && Insert(g, v)[x].weight == g[x].weight
    {
      InsertKeeps(g, v, x);
    }
  }

  lemma {:induction false} CommitShape(g: Graph, seen: set<Hash>, v: Vertex)
    requires Shape(g, seen) && v.tx.hash !in seen && v.tx.hash != ZERO
    requires v.tx.leftTip in seen && v.tx.rightTip in seen
    ensures Shape(Insert(g, v), seen + {v.tx.hash})
  {
    var h, t := v.tx.hash, TipsOf(g);
    InsertTips(g, v);
    InsertShape(g, v);
    forall a | a in t
      ensures t[a].left != h && t[a].right != h
    {
      assert Edge(t, a, t[a].left) && Edge(t, a, t[a].right);
    }
    ExtendAcyclic(t, h, Tips(v.tx.leftTip, v.tx.rightTip));
    forall a, b | Edge(TipsOf(Insert(g, v)), a, b)
      ensures b in seen + {h} || b == ZERO
    {
      if a != h {
        assert Edge(t, a, b);
      }
    }
  }

  lemma {:induction false} CommitOrdered(g: Graph, seen: set<Hash>, updating: set<Hash>, genesis: Hash, v: Vertex)
    requires Shape(g, seen) && Weights(g, updating, genesis) && EdgesOrdered(g, updating, genesis)
    requires v.tx.hash !in seen && v.tx.hash != ZERO && v.weight == 0
    requires v.tx.leftTip in seen && v.tx.rightTip in seen
    ensures EdgesOrdered(Insert(g, v), updating + {v.tx.hash}, genesis)
  {
    var h, g' := v.tx.hash, Insert(g, v);
    InsertTips(g, v);
    InsertShape(g, v);
    forall a, b | Edge(TipsOf(g'), a, b) && b in g'
      ensures a in g' && Outweighs(g', updating + {h}, genesis, b, a)
    {
      if a != h {
        assert Edge(TipsOf(g), a, b);
      }
      assert b in seen && b != h;
    }
  }

  lemma {:induction false} CommitKeeps(s: State, genesis: Hash, h: Hash)
    requires Inv(s, genesis) && Enabled(s, Commit(h))
    ensures Inv(Apply(s, Commit(h)), genesis)
  {
    var v, s' := s.arriving[h].vertex, Apply(s, Commit(h));
    assert ArrivalOk(s.seen, h, s.arriving[h]);
    CommitShape(s.graph, s.seen, v);
    CommitOrdered(s.graph, s.seen, s.updating, genesis, v);
    InsertShape(s.graph, v);
    forall k | k in s'.arriving
      ensures ArrivalOk(s'.seen, k, s'.arriving[k])
    {
      assert ArrivalOk(s.seen, k, s.arriving[k]);
    }
    forall id | id in s'.prunes
      ensures ListOk(s'.graph, s'.seen, s'.prunes[id])
    {
      assert ListOk(s.graph, s.seen, s.prunes[id]);
    }
  }

  /**
   The steps take every hash for new. One that comes back after its deletion keeps the order exactly
   when no vertex above it has gathered any weight.
   */
  lemma {:induction false} ReturnOrderedExactly(s: State, genesis: Hash, v: Vertex)
    requires Inv(s, genesis) && v.tx.hash in s.seen && v.tx.hash !in s.graph && v.weight == 0
    requires v.tx.leftTip != v.tx.hash && v.tx.rightTip != v.tx.hash
    ensures EdgesOrdered(Insert(s.graph, v), s.updating + {v.tx.hash}, genesis) <==>
            forall a :: Edge(TipsOf(s.graph), a, v.tx.hash) ==> s.graph[a].weight == 0
  {
    var g, h := s.graph, v.tx.hash;
    var t, g', updating := TipsOf(g), Insert(g, v), s.updating + {h};
    InsertTips(g, v);
    InsertShape(g, v);
    forall a, b | Edge(TipsOf(g'), a, b) && b in g' && (a == h || b != h)
      ensures a in g' && Outweighs(g', updating, genesis, b, a)
    {
      if a != h {
        assert Edge(t, a, b);
      }
    }
    forall a | Edge(t, a, h)
      ensures Edge(TipsOf(g'), a, h) && (Outweighs(g', updating, genesis, h, a) <==> g[a].weight == 0)
    {}
    if EdgesOrdered(g', updating, genesis) {
      forall a | Edge(t, a, h)
        ensures g[a].weight == 0
      {
        assert Edge(TipsOf(g'), a, h) && Outweighs(g', updating, genesis, h, a);
      }
    }
  }

  // ----- increments

  lemma {:induction false} RaiseAllShape(g: Graph, s: set<Hash>)
    ensures RaiseAll(g, s).Keys == g.Keys && TipsOf(RaiseAll(g, s)) == TipsOf(g)
    ensures forall x :: x in g ==> RaiseAll(g, s)[x].weight == g[x].weight + if x in s then 1 else 0
  {}

  /** What is raised is closed under in-graph tips, and h is raised without its approvers. */
  lemma {:induction false} BelowEdges(t: TipMap, h: Hash, a: Hash, b: Hash)
    requires Acyclic(t) && Edge(t, a, b) && b in t
    ensures a in Below(t, h) ==> b in Below(t, h)
    ensures h in t ==> h in Below(t, h)
    ensures b == h ==> a !in Below(t, h)
  {
    ReachesSelf(t, h);
    EdgeHop(t, a, b);
    if a in Below(t, h) {
      ReachesTrans(t, h, a, b);
    }
    if b == h {
      AcyclicStrict(t, a, h);
    }
  }

  lemma {:induction false} UpdateOrdered(g: Graph, updating: set<Hash>, genesis: Hash, h: Hash)
    requires Acyclic(TipsOf(g)) && EdgesOrdered(g, updating, genesis)
    ensures EdgesOrdered(Updated(g, h), updating - {h}, genesis)
  {
    var t, g' := TipsOf(g), Updated(g, h);
    RaiseAllShape(g, Below(t, h));
    forall a, b | Edge(TipsOf(g'), a, b) && b in g'
      ensures a in g' && Outweighs(g', updating - {h}, genesis, b, a)
    {
      assert Edge(t, a, b) && Outweighs(g, updating, genesis, b, a);
      BelowEdges(t, h, a, b);
    }
  }

  lemma {:induction false} UpdateKeeps(s: State, genesis: Hash, h: Hash)
    requires Inv(s, genesis) && Enabled(s, Update(h))
    ensures Inv(Apply(s, Update(h)), genesis)
  {
    var s' := Apply(s, Update(h));
    UpdateOrdered(s.graph, s.updating, genesis, h);
    RaiseAllShape(s.graph, Below(TipsOf(s.graph), h));
    ReachesSelf(TipsOf(s.graph), h);
    forall id | id in s'.prunes
      ensures ListOk(s'.graph, s'.seen, s'.prunes[id])
    {
      assert ListOk(s.graph, s.seen, s.prunes[id]);
    }
  }

  // ----- confirmation and deletion

  lemma {:induction false} ConfirmKeeps(s: State, genesis: Hash, h: Hash)
    requires Inv(s, genesis)
    ensures Inv(Apply(s, Confirm(h)), genesis)
  {
    var s' := Apply(s, Confirm(h));
    assert TipsOf(s'.graph) == TipsOf(s.graph);
    forall id | id in s'.prunes
      ensures ListOk(s'.graph, s'.seen, s'.prunes[id])
    {
      assert ListOk(s.graph, s.seen, s.prunes[id]);
    }
  }

  lemma {:induction false} HopsWithout(g: Graph, gone: set<Hash>, a: Hash, b: Hash, n: nat)
    requires Hops(TipsOf(Without(g, gone)), a, b, n)
    ensures Hops(TipsOf(g), a, b, n)
    decreases n
  {
    if n > 0 {
      var t := TipsOf(g);
      var next := if Hops(TipsOf(Without(g, gone)), t[a].left, b, n - 1) then t[a].left else t[a].right;
      HopsWithout(g, gone, next, b, n - 1);
    }
  }

  lemma {:induction false} WithoutOrdered(g: Graph, seen: set<Hash>, updating: set<Hash>, genesis: Hash,
                                          gone: set<Hash>)
    requires Shape(g, seen) && Weights(g, updating, genesis) && EdgesOrdered(g, updating, genesis)
    ensures Shape(Without(g, gone), seen) && Weights(Without(g, gone), updating, genesis)
    ensures EdgesOrdered(Without(g, gone), updating, genesis)
  {
    var t, t' := TipsOf(g), TipsOf(Without(g, gone));
    assert forall a, b :: Edge(t', a, b) ==> Edge(t, a, b);
    forall a, n: nat | n > 0
      ensures !Hops(t', a, a, n)
    {
      if Hops(t', a, a, n) {
        HopsWithout(g, gone, a, a, n);
      }
    }
  }

  /** A deletion keeps the invariant, whatever it deletes and whatever becomes of its own record. */
  lemma {:induction false} WithoutKeeps(s: State, genesis: Hash, gone: set<Hash>, prunes': map<nat, Pruning>)
    requires Inv(s, genesis)
    requires forall id :: id in prunes' ==> prunes'[id].Sweeping? || (id in s.prunes && prunes'[id] == s.prunes[id])
    ensures Inv(s.(graph := Without(s.graph, gone), prunes := prunes'), genesis)
  {
    WithoutOrdered(s.graph, s.seen, s.updating, genesis, gone);
    forall id | id in prunes'
      ensures ListOk(Without(s.graph, gone), s.seen, prunes'[id])
    {
      if !prunes'[id].Sweeping? {
        assert ListOk(s.graph, s.seen, s.prunes[id]);
      }
    }
  }

  lemma {:induction false} ArriveKeeps(s: State, genesis: Hash, a: Action)
    requires Inv(s, genesis) && Enabled(s, a) && (a.FindLeft? || a.FindRight?)
    ensures Inv(Apply(s, a), genesis)
  {
    var s' := Apply(s, a);
    forall k | k in s'.arriving
      ensures ArrivalOk(s'.seen, k, s'.arriving[k])
    {
      if k in s.arriving {
        assert ArrivalOk(s.seen, k, s.arriving[k]);
      }
    }
  }

  lemma {:induction false} ScanKeeps(s: State, genesis: Hash, a: Action)
    requires Inv(s, genesis) && Enabled(s, a) && a.Scan?
    ensures Inv(Apply(s, a), genesis)
  {
    var s' := Apply(s, a);
    forall id | id in s'.prunes
      ensures ListOk(s'.graph, s'.seen, s'.prunes[id])
    {
      if id in s.prunes {
        assert ListOk(s.graph, s.seen, s.prunes[id]);
      }
    }
  }

  /** Every locked section of every handler keeps the invariant. */
  lemma {:induction false} StepKeeps(s: State, genesis: Hash, a: Action)
    requires Inv(s, genesis) && Enabled(s, a)
    ensures Inv(Apply(s, a), genesis)
  {
    match a {
      case FindLeft(v) => ArriveKeeps(s, genesis, a);
      case FindRight(h) => ArriveKeeps(s, genesis, a);
      case Commit(h) => CommitKeeps(s, genesis, h);
      case Update(h) => UpdateKeeps(s, genesis, h);
      case Confirm(h) => ConfirmKeeps(s, genesis, h);
      case Scan(id, threshold, clock) => ScanKeeps(s, genesis, a);
      case Delete(id, kept) => WithoutKeeps(s, genesis, s.prunes[id].hashes - {kept}, s.prunes[id := Sweeping]);
      case Sweep(id, clock) => WithoutKeeps(s, genesis, TimedOut(s.graph, clock), s.prunes - {id});
    }
  }

  lemma {:induction false} RunKeeps(s: State, genesis: Hash, schedule: seq<Action>, s': State)
    requires Inv(s, genesis) && Runs(s, schedule, s')
    ensures Inv(s', genesis)
    decreases |schedule|
  {
    if schedule != [] {
      StepKeeps(s, genesis, schedule[0]);
      RunKeeps(Apply(s, schedule[0]), genesis, schedule[1..], s');
    }
  }

  lemma {:induction false} InitialInv(genesis: Hash)
    requires genesis != ZERO
    ensures Inv(Initial(genesis), genesis)
  {
    var t0: TipMap := map[];
    ExtendAcyclic(t0, genesis, Tips(ZERO, ZERO));
    assert TipsOf(Initial(genesis).graph) == t0[genesis := Tips(ZERO, ZERO)];
  }

  lemma {:induction false} ReachableInv(genesis: Hash, s: State)
    requires genesis != ZERO && Reachable(genesis, s)
    ensures Inv(s, genesis)
  {
    var schedule :| Runs(Initial(genesis), schedule, s);
    InitialInv(genesis);
    RunKeeps(Initial(genesis), genesis, schedule, s);
  }

  // ----- the weight order

  /**
   In every state any interleaving reaches, an in-graph tip weighs at least what its approver weighs,
   and more unless it is genesis or its own UpdateWeights is pending; and there is no cycle.
   */
  lemma {:induction false} TipsOutweighApprovers(genesis: Hash, s: State, a: Hash, b: Hash)
    requires genesis != ZERO && Reachable(genesis, s)
    requires Edge(TipsOf(s.graph), a, b) && b in s.graph
    ensures a in s.graph && s.graph[b].weight >= s.graph[a].weight
    ensures b != genesis && b !in s.updating ==> s.graph[b].weight > s.graph[a].weight
    ensures Acyclic(TipsOf(s.graph))
  {
    ReachableInv(genesis, s);
  }

  /** Weights grow down a path inside the graph as they do along an edge. */
  lemma {:induction false} HeavierBelow(s: State, genesis: Hash, a: Hash, b: Hash, n: nat)
    requires Inv(s, genesis) && n > 0 && Hops(TipsOf(s.graph), a, b, n) && b in s.graph
    ensures a in s.graph && Outweighs(s.graph, s.updating, genesis, b, a)
    decreases n
  {
    var t := TipsOf(s.graph);
    var next := if Hops(t, t[a].left, b, n - 1) then t[a].left else t[a].right;
    assert Edge(t, a, next);
    if n == 1 {
      assert next == b;
    } else {
      HeavierBelow(s, genesis, next, b, n - 1);
    }
  }

  // ----- what a deletion keeps

  /** A deletion over the list c keeps an in-graph vertex that one of the vertices it deletes reaches. */
  ghost predicate KeptBelow(g: Graph, c: set<Hash>, kept: Hash, d: Hash) {
    LightestRead(g, c, kept) && kept in g && d in c && d != kept && Reaches(TipsOf(g), d, kept)
  }

  /** A lightest one of the list is genesis or still owed its own increments, and one above it ties. */
  ghost predicate UnsettledTie(s: State, c: set<Hash>, genesis: Hash, kept: Hash, d: Hash) {
    && LightestRead(s.graph, c, kept) && kept in s.graph && (kept == genesis || kept in s.updating)
    && d in c && d in s.graph && d != kept && s.graph[d].weight == s.graph[kept].weight
    && Reaches(TipsOf(s.graph), d, kept)
  }

  lemma {:induction false} KeptIsUnsettled(genesis: Hash, s: State, c: set<Hash>, kept: Hash, d: Hash)
    requires Inv(s, genesis) && KeptBelow(s.graph, c, kept, d)
    ensures UnsettledTie(s, c, genesis, kept, d)
  {
    var n: nat :| Hops(TipsOf(s.graph), d, kept, n);
    HeavierBelow(s, genesis, d, kept, n);
  }

  /**
   In every state any interleaving reaches and for every list: a deletion can keep a vertex below one
   it deletes exactly when genesis, or a vertex whose UpdateWeights is pending, is a lightest one of
   the list and a listed vertex above it weighs the same.
   */
  lemma {:induction false} KeptBelowExactly(genesis: Hash, s: State, c: set<Hash>)
    requires genesis != ZERO && Reachable(genesis, s)
    ensures (exists kept, d :: KeptBelow(s.graph, c, kept, d)) <==>
            (exists kept, d :: UnsettledTie(s, c, genesis, kept, d))
  {
    ReachableInv(genesis, s);
    if kept, d :| KeptBelow(s.graph, c, kept, d) {
      KeptIsUnsettled(genesis, s, c, kept, d);
    }
    if kept, d :| UnsettledTie(s, c, genesis, kept, d) {
      assert KeptBelow(s.graph, c, kept, d);
    }
  }

  /** Some vertex of the list is in the graph. */
  ghost predicate SomeLeft(g: Graph, c: set<Hash>) {
    exists h :: h in c && h in g
  }

  /**
   For every Prune with a positive threshold in every state any interleaving reaches: its deletion
   leaves a vertex of its list if and only if none has been deleted since its scan; then it leaves
   exactly the one it keeps.
   */
  lemma {:induction false} AnchorLeftExactly(genesis: Hash, s: State, id: nat, kept: Hash)
    requires genesis != ZERO && Reachable(genesis, s) && Enabled(s, Delete(id, kept)) && s.prunes[id].threshold > 0
    ensures var c, g' := s.prunes[id].hashes, Apply(s, Delete(id, kept)).graph;
      && (SomeLeft(g', c) <==> c <= s.graph.Keys)
      && (c <= s.graph.Keys ==> forall h :: h in c ==> (h in g' <==> h == kept))
  {
    ReachableInv(genesis, s);
    var c, g' := s.prunes[id].hashes, Apply(s, Delete(id, kept)).graph;
    assert ListOk(s.graph, s.seen, s.prunes[id]);
    if c <= s.graph.Keys {
      assert kept in c && kept in g';
    } else {
      var gone := Missing(c, s.graph.Keys);
      assert WeightRead(s.graph, kept) <= WeightRead(s.graph, gone) == 0;
    }
  }

  ghost function Missing(c: set<Hash>, keys: set<Hash>): (h: Hash)
    requires !(c <= keys)
    ensures h in c && h !in keys
  {
    var h :| h in c && h !in keys;
    h
  }

  /** A deleted hash never comes back, so a list only ever loses members. */
  lemma {:induction false} DeletedStaysAway(s: State, genesis: Hash, a: Action, h: Hash)
    requires Inv(s, genesis) && Enabled(s, a) && h in s.seen && h !in s.graph
    ensures h in Apply(s, a).seen && h !in Apply(s, a).graph
  {
    if a.Commit? {
      assert ArrivalOk(s.seen, a.h, s.arriving[a.h]);
      InsertShape(s.graph, s.arriving[a.h].vertex);
    }
  }

  /** So a list lies in the graph exactly as long as none of it has been deleted at any time. */
  lemma {:induction false} DeletedForever(s: State, genesis: Hash, schedule: seq<Action>, s': State, h: Hash)
    requires Inv(s, genesis) && Runs(s, schedule, s') && h in s.seen && h !in s.graph
    ensures h !in s'.graph
    decreases |schedule|
  {
    if schedule != [] {
      DeletedStaysAway(s, genesis, schedule[0], h);
      StepKeeps(s, genesis, schedule[0]);
      DeletedForever(Apply(s, schedule[0]), genesis, schedule[1..], s', h);
    }
  }
}
