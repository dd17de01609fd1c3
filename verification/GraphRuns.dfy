/**
 What any handlers do to the storage node's graph, seen from the lock: insertions and weight
 increments in any order. A hash may be inserted again, as happens once the pool that detects
 duplicates is full, and nothing on arrival compares its tips with the ones on record.
 */
module GraphRuns {
  import opened Dag
  import opened StorageDag
  import opened Compression
  import ConcurrentInserts

  /** The two locked sections that write to the graph. */
  datatype Step = Insertion(vertex: Vertex) | Increment(hash: Hash)

  function Apply(g: Graph, step: Step): Graph {
    match step
    case Insertion(v) => Insert(g, v)
    case Increment(x) => Raise(g, x)
  }

  function After(g: Graph, steps: seq<Step>): Graph {
    if steps == [] then g else Apply(After(g, steps[..|steps| - 1]), steps[|steps| - 1])
  }

  // ----- when an insertion closes a cycle

  /** A path to h up to where it first meets h does not use the tips of h. */
  lemma {:induction false} ReachAvoiding(t: TipMap, h: Hash, tips: Tips, a: Hash, n: nat)
    requires Hops(t, a, h, n)
    ensures Reaches(t[h := tips], a, h)
    decreases n
  {
    var t' := t[h := tips];
    ReachesSelf(t', h);
    if a != h {
      var next := if Hops(t, t[a].left, h, n - 1) then t[a].left else t[a].right;
      ReachAvoiding(t, h, tips, next, n - 1);
      assert Edge(t', a, next);
      EdgeHop(t', a, next);
      ReachesTrans(t', a, next, h);
    }
  }

  /** What h reaches depends on its own tips; whether it is reached does not. */
  lemma {:induction false} ReachedAlike(t: TipMap, h: Hash, tips: Tips, a: Hash)
    ensures Reaches(t[h := tips], a, h) <==> Reaches(t, a, h)
  {
    var t' := t[h := tips];
    if n: nat :| Hops(t, a, h, n) {
      ReachAvoiding(t, h, tips, a, n);
    }
    if Reaches(t', a, h) {
      var n: nat :| Hops(t', a, h, n);
      if h in t {
        assert t'[h := t[h]] == t;
        ReachAvoiding(t', h, t[h], a, n);
      } else {
        ReachMissing(t, h, tips, a, n);
      }
    }
  }

  lemma {:induction false} ReachMissing(t: TipMap, h: Hash, tips: Tips, a: Hash, n: nat)
    requires h !in t && Hops(t[h := tips], a, h, n)
    ensures Reaches(t, a, h)
    decreases n
  {
    ReachesSelf(t, h);
    if a != h {
      var t' := t[h := tips];
      var next := if Hops(t', t[a].left, h, n - 1) then t[a].left else t[a].right;
      ReachMissing(t, h, tips, next, n - 1);
      EdgeHop(t, a, next);
      ReachesTrans(t, a, next, h);
    }
  }

  /** A path under the new map is a path under the old one, or goes through h. */
  lemma {:induction false} PathOrThrough(t: TipMap, h: Hash, tips: Tips, a: Hash, b: Hash, n: nat)
    requires Hops(t[h := tips], a, b, n)
    ensures Hops(t, a, b, n) || (Reaches(t[h := tips], a, h) && Reaches(t[h := tips], h, b))
    decreases n
  {
    var t' := t[h := tips];
    ReachesSelf(t', h);
    if a == h {
      assert Reaches(t', h, b);
    } else if n > 0 {
      var next := if Hops(t', t'[a].left, b, n - 1) then t'[a].left else t'[a].right;
      PathOrThrough(t, h, tips, next, b, n - 1);
      EdgeHop(t', a, next);
      if !Hops(t, next, b, n - 1) {
        ReachesTrans(t', a, next, h);
      }
    }
  }

  /** Neither tip of the vertex reaches its hash already. */
  ghost predicate Clear(g: Graph, step: Step) {
    step.Insertion? ==>
      var t, tx := TipsOf(g), step.vertex.tx;
      !Reaches(t, tx.leftTip, tx.hash) && !Reaches(t, tx.rightTip, tx.hash)
  }

  lemma {:induction false} TipReachesCycles(t: TipMap, h: Hash, tips: Tips, tip: Hash)
    requires tip == tips.left || tip == tips.right
    requires Reaches(t, tip, h)
    ensures !Acyclic(t[h := tips])
  {
    var t' := t[h := tips];
    ReachedAlike(t, h, tips, tip);
    EdgeHop(t', h, tip);
    ReachesTrans(t', h, tip, h);
    var n: nat :| n > 0 && Hops(t', h, h, n);
  }

  lemma {:induction false} ClearStaysAcyclic(t: TipMap, h: Hash, tips: Tips)
    requires Acyclic(t) && !Reaches(t, tips.left, h) && !Reaches(t, tips.right, h)
    ensures Acyclic(t[h := tips])
  {
    var t' := t[h := tips];
    ReachedAlike(t, h, tips, tips.left);
    ReachedAlike(t, h, tips, tips.right);
    forall a, n: nat | n > 0 && Hops(t', a, a, n)
      ensures false
    {
      PathOrThrough(t, h, tips, a, a, n);
      NoReturn(t, h, tips, a);
      CycleThroughTip(t', h, n);
    }
  }

  lemma {:induction false} CycleThroughTip(t: TipMap, h: Hash, n: nat)
    requires n > 0 && Hops(t, h, h, n)
    ensures Reaches(t, t[h].left, h) || Reaches(t, t[h].right, h)
  {
    assert Hops(t, t[h].left, h, n - 1) || Hops(t, t[h].right, h, n - 1);
  }

  /** Under that condition nothing h reaches, other than h itself, reaches h. */
  lemma {:induction false} NoReturn(t: TipMap, h: Hash, tips: Tips, a: Hash)
    requires !Reaches(t[h := tips], tips.left, h) && !Reaches(t[h := tips], tips.right, h)
    requires Reaches(t[h := tips], h, a) && Reaches(t[h := tips], a, h)
    ensures a == h
  {
    var t' := t[h := tips];
    var n: nat :| Hops(t', h, a, n);
    if n > 0 {
      var next := if Hops(t', tips.left, a, n - 1) then tips.left else tips.right;
      assert Hops(t', next, a, n - 1);
      ReachesTrans(t', next, a, h);
    }
  }

  /** For every vertex, new or known, with any tips: it closes no cycle exactly if the step is clear. */
  lemma {:induction false} StepAcyclicExactly(g: Graph, step: Step)
    requires Acyclic(TipsOf(g))
    ensures Acyclic(TipsOf(Apply(g, step))) <==> Clear(g, step)
  {
    match step {
      case Insertion(v) =>
        var t, h, tips := TipsOf(g), v.tx.hash, Tips(v.tx.leftTip, v.tx.rightTip);
        InsertTips(g, v);
        if Clear(g, step) {
          ClearStaysAcyclic(t, h, tips);
        } else {
          TipReachesCycles(t, h, tips, if Reaches(t, tips.left, h) then tips.left else tips.right);
        }
      case Increment(x) =>
        assert TipsOf(Raise(g, x)) == TipsOf(g);
    }
  }

  // ----- runs

  /** Compressing any list of the graph's vertices passes the check. */
  ghost predicate CompressionWorks(t: TipMap) {
    forall p :: p <= t.Keys ==> Covers(t, Compressed(t, p), p)
  }

  /** The graph before step i. */
  ghost predicate WorksAt(g: Graph, steps: seq<Step>, i: nat)
    requires i <= |steps|
  {
    CompressionWorks(TipsOf(After(g, steps[..i])))
  }

  ghost predicate ClearAt(g: Graph, steps: seq<Step>, i: nat)
    requires i < |steps|
  {
    Clear(After(g, steps[..i]), steps[i])
  }

  lemma {:induction false} OneMore(g: Graph, steps: seq<Step>, i: nat)
    requires i < |steps|
    ensures After(g, steps[..i + 1]) == Apply(After(g, steps[..i]), steps[i])
  {
    assert steps[..i + 1][..i] == steps[..i];
  }

  lemma {:induction false} ClearRunAcyclic(g: Graph, steps: seq<Step>, i: nat)
    requires Acyclic(TipsOf(g)) && i <= |steps| && forall k :: 0 <= k < |steps| ==> ClearAt(g, steps, k)
    ensures Acyclic(TipsOf(After(g, steps[..i])))
    decreases i
  {
    if i > 0 {
      ClearRunAcyclic(g, steps, i - 1);
      OneMore(g, steps, i - 1);
      assert ClearAt(g, steps, i - 1);
      StepAcyclicExactly(After(g, steps[..i - 1]), steps[i - 1]);
    }
  }

  /**
   Over every sequence of insertions and increments, repeats included: compression passes its check
   at every moment if and only if no arriving vertex had a tip from which its hash was reachable.
   */
  lemma {:induction false} CompressionWorksExactly(g: Graph, steps: seq<Step>)
    requires Acyclic(TipsOf(g))
    ensures (forall i :: 0 <= i <= |steps| ==> WorksAt(g, steps, i)) <==>
            (forall i :: 0 <= i < |steps| ==> ClearAt(g, steps, i))
  {
    if forall i :: 0 <= i < |steps| ==> ClearAt(g, steps, i) {
      forall i | 0 <= i <= |steps|
        ensures WorksAt(g, steps, i)
      {
        ClearRunAcyclic(g, steps, i);
        SucceedsExactlyIfAcyclic(TipsOf(After(g, steps[..i])));
      }
    }
    if forall i :: 0 <= i <= |steps| ==> WorksAt(g, steps, i) {
      forall i | 0 <= i < |steps|
        ensures ClearAt(g, steps, i)
      {
        assert WorksAt(g, steps, i) && WorksAt(g, steps, i + 1);
        SucceedsExactlyIfAcyclic(TipsOf(After(g, steps[..i])));
        SucceedsExactlyIfAcyclic(TipsOf(After(g, steps[..i + 1])));
        OneMore(g, steps, i);
        StepAcyclicExactly(After(g, steps[..i]), steps[i]);
      }
    }
  }

  function Blank(h: nat, tip: nat): Vertex {
    Vertex(Transaction(Hash(h), Hash(tip), Hash(tip), 0), [], 1, false)
  }

  /**
   Such an arrival: a vertex over genesis, one over that, and the first hash again over the second
   vertex. Every tip is found, and then the check fails.
   */
  lemma {:induction false} KnownHashOverItself()
    ensures var g := Insert(Insert(map[Hash(1) := Blank(1, 0)], Blank(2, 1)), Blank(3, 2));
      && TipsFound(map[Hash(1) := Blank(1, 0)], Blank(2, 1))
      && TipsFound(Insert(map[Hash(1) := Blank(1, 0)], Blank(2, 1)), Blank(3, 2))
      && TipsFound(g, Blank(2, 3)) && CompressionWorks(TipsOf(g)) && !CompressionWorks(TipsOf(Insert(g, Blank(2, 3))))
  {
    var g1: Graph := map[Hash(1) := Blank(1, 0)];
    var g2 := Insert(g1, Blank(2, 1));
    var g3 := Insert(g2, Blank(3, 2));
    InsertTips(g1, Blank(2, 1));
    InsertTips(g2, Blank(3, 2));
    var t0: TipMap := map[];
    ExtendAcyclic(t0, Hash(1), Tips(ZERO, ZERO));
    assert TipsOf(g1) == t0[Hash(1) := Tips(ZERO, ZERO)];
    ExtendAcyclic(TipsOf(g1), Hash(2), Tips(Hash(1), Hash(1)));
    ExtendAcyclic(TipsOf(g2), Hash(3), Tips(Hash(2), Hash(2)));
    EdgeHop(TipsOf(g3), Hash(3), Hash(2));
    StepAcyclicExactly(g3, Insertion(Blank(2, 3)));
    SucceedsExactlyIfAcyclic(TipsOf(g3));
    SucceedsExactlyIfAcyclic(TipsOf(Insert(g3, Blank(2, 3))));
  }

  // ----- hashes that determine their tips

  /** A verified vertex whose hash is new, or is inserted again with the tips on record. */
  predicate OnRecord(g: Graph, step: Step) {
    step.Insertion? ==>
      var v := step.vertex;
      && v.tx.hash != ZERO && TipsFound(g, v)
      && (v.tx.hash in g ==> TipsOf(g)[v.tx.hash] == Tips(v.tx.leftTip, v.tx.rightTip))
  }

  lemma {:induction false} NothingReachesNew(t: TipMap, h: Hash, a: Hash, n: nat)
    requires Unreferenced(t, h) && Hops(t, a, h, n)
    ensures a == h
    decreases n
  {
    if n > 0 {
      var next := if Hops(t, t[a].left, h, n - 1) then t[a].left else t[a].right;
      NothingReachesNew(t, h, next, n - 1);
    }
  }

  /** Such a step is clear. */
  lemma {:induction false} OnRecordIsClear(g: Graph, genesis: Hash, step: Step)
    requires TipsPresent(g, genesis) && Acyclic(TipsOf(g)) && OnRecord(g, step)
    ensures Clear(g, step)
  {
    if step.Insertion? {
      var t, v := TipsOf(g), step.vertex;
      forall tip | (tip == v.tx.leftTip || tip == v.tx.rightTip) && Reaches(t, tip, v.tx.hash)
        ensures false
      {
        if v.tx.hash in g {
          EdgeHop(t, v.tx.hash, tip);
          ReachesTrans(t, v.tx.hash, tip, v.tx.hash);
        } else {
          var n: nat :| Hops(t, tip, v.tx.hash, n);
          NewUnreferenced(g, genesis, v.tx.hash);
          NothingReachesNew(t, v.tx.hash, tip, n);
        }
      }
    }
  }

  lemma {:induction false} NewUnreferenced(g: Graph, genesis: Hash, h: Hash)
    requires TipsPresent(g, genesis) && h !in g && h != ZERO
    ensures Unreferenced(TipsOf(g), h)
  {}

  lemma {:induction false} InsertKeepsPresent(g: Graph, genesis: Hash, v: Vertex)
    requires TipsPresent(g, genesis) && OnRecord(g, Insertion(v))
    ensures TipsPresent(Insert(g, v), genesis)
  {
    var h, g' := v.tx.hash, Insert(g, v);
    assert g'.Keys == g.Keys + {h} && g'[h].tx == v.tx;
    forall x | x in g && x != h
      ensures g'[x].tx == g[x].tx
    {
      InsertKeeps(g, v, x);
    }
    assert TipsOf(g)[genesis] == Tips(ZERO, ZERO);
  }

  /** A vertex that arrives without neighbours leaves every listed neighbour an approver. */
  lemma {:induction false} InsertKeepsListed(g: Graph, v: Vertex)
    requires NeighboursApprove(g) && OnRecord(g, Insertion(v)) && v.neighbours == []
    ensures NeighboursApprove(Insert(g, v))
  {
    var h, g' := v.tx.hash, Insert(g, v);
    var t, t' := TipsOf(g), TipsOf(g');
    InsertTips(g, v);
    forall x, y | x in g' && y in g'[x].neighbours
      ensures Edge(t', y, x)
    {
      if x == h {
        assert y == h && (h == v.tx.leftTip || h == v.tx.rightTip);
      } else {
        InsertKeeps(g, v, x);
        if y in g[x].neighbours {
          assert Edge(t, y, x);
        }
      }
    }
  }

  /** Such steps keep the tips closed and the graph acyclic, and only ever add to the tip map. */
  lemma {:induction false} StepKeeps(g: Graph, genesis: Hash, step: Step)
    requires TipsPresent(g, genesis) && Acyclic(TipsOf(g)) && OnRecord(g, step)
    ensures TipsPresent(Apply(g, step), genesis) && Acyclic(TipsOf(Apply(g, step)))
    ensures Extends(TipsOf(g), TipsOf(Apply(g, step)))
  {
    OnRecordIsClear(g, genesis, step);
    StepAcyclicExactly(g, step);
    match step {
      case Insertion(v) =>
        InsertKeepsPresent(g, genesis, v);
        InsertTips(g, v);
      case Increment(x) =>
        assert TipsOf(Raise(g, x)) == TipsOf(g);
    }
  }

  ghost predicate OnRecordAt(g: Graph, steps: seq<Step>, i: nat)
    requires i < |steps|
  {
    OnRecord(After(g, steps[..i]), steps[i])
  }

  lemma {:induction false} RunKeeps(genesis: Transaction, steps: seq<Step>, i: nat)
    requires genesis.hash != ZERO && genesis.leftTip == ZERO && genesis.rightTip == ZERO && i <= |steps|
    requires forall k :: 0 <= k < |steps| ==> OnRecordAt(GenesisGraph(genesis), steps, k)
    ensures var g := After(GenesisGraph(genesis), steps[..i]);
      TipsPresent(g, genesis.hash) && Acyclic(TipsOf(g))
    decreases i
  {
    GenesisAlone(genesis);
    if i > 0 {
      RunKeeps(genesis, steps, i - 1);
      OneMore(GenesisGraph(genesis), steps, i - 1);
      assert OnRecordAt(GenesisGraph(genesis), steps, i - 1);
      StepKeeps(After(GenesisGraph(genesis), steps[..i - 1]), genesis.hash, steps[i - 1]);
    }
  }

  function GenesisGraph(genesis: Transaction): Graph {
    map[genesis.hash := Vertex(genesis, [], 1, false)]
  }

  /** Compression passes its check at every moment of every run of such steps from genesis. */
  lemma {:induction false} CompressionSucceeds(genesis: Transaction, steps: seq<Step>, i: nat, p: set<Hash>)
    requires genesis.hash != ZERO && genesis.leftTip == ZERO && genesis.rightTip == ZERO && i <= |steps|
    requires forall k :: 0 <= k < |steps| ==> OnRecordAt(GenesisGraph(genesis), steps, k)
    ensures var t := TipsOf(After(GenesisGraph(genesis), steps[..i]));
      Covers(t, Compressed(t, p), p)
  {
    RunKeeps(genesis, steps, i);
    CompressedCovers(TipsOf(After(GenesisGraph(genesis), steps[..i])), p);
  }

  /** What other handlers do while a pruning round has released the lock keeps what the round relies on. */
  lemma {:induction false} OthersKeep(genesis: Hash, t: TipMap, g: Graph, step: Step)
    requires Sound(g, genesis) && Extends(t, TipsOf(g))
    requires OnRecord(g, step) && (step.Insertion? ==> step.vertex.neighbours == [])
    ensures Sound(Apply(g, step), genesis) && Extends(t, TipsOf(Apply(g, step)))
  {
    StepKeeps(g, genesis, step);
    match step {
      case Insertion(v) => InsertKeepsListed(g, v);
      case Increment(x) => assert TipsOf(Raise(g, x)) == TipsOf(g);
    }
  }

  /** A round may begin in any state the concurrent handlers of fresh vertices reach. */
  lemma {:induction false} ConcurrentSound(genesis: Transaction, s: ConcurrentInserts.State)
    requires genesis.hash != ZERO && genesis.leftTip == ZERO && genesis.rightTip == ZERO
    requires ConcurrentInserts.Reachable(genesis, s)
    ensures Sound(s.graph, genesis.hash)
  {
    ConcurrentInserts.InitialInv(genesis);
    var schedule :| ConcurrentInserts.Runs(ConcurrentInserts.Initial(genesis), schedule, s);
    ConcurrentInserts.RunKeeps(ConcurrentInserts.Initial(genesis), genesis.hash, schedule, s);
    WellKeptIsSound(s.graph, genesis.hash);
  }

  /** The steps of the handlers that insert at once are such steps, or leave the graph alone. */
  lemma {:induction false} HandlersStep(s: ConcurrentInserts.State, genesis: Hash, a: ConcurrentInserts.Action)
    requires ConcurrentInserts.Inv(s, genesis) && ConcurrentInserts.Enabled(s, a)
    ensures var g' := ConcurrentInserts.Apply(s, a).graph;
      g' == s.graph || exists step :: OnRecord(s.graph, step) && g' == Apply(s.graph, step)
  {
    var g' := ConcurrentInserts.Apply(s, a).graph;
    match a {
      case Commit(h) =>
        assert ConcurrentInserts.JobOk(s.graph, h, s.jobs[h]);
        assert OnRecord(s.graph, Insertion(s.jobs[h].vertex)) && g' == Apply(s.graph, Insertion(s.jobs[h].vertex));
      case Bump(h, x) =>
        assert OnRecord(s.graph, Increment(x)) && g' == Apply(s.graph, Increment(x));
      case _ =>
    }
  }
}
