/**
 The Adam point of a list: weighted random walks up from every entry, and the vertex they meet most
 often.
 */
module AdamPoint {
  import opened Go
  import opened Dag
  import opened StorageDag

  /** The map of visit counts, passed by reference. */
  class Visits {
    var count: map<Hash, nat>

    constructor ()
      ensures count == map[]
    {
      count := map[];
    }
  }

  function WeightIn(g: Graph, h: Hash): int {
    if h in g then g[h].weight else 0
  }

  function Total(weights: seq<int>): int {
    if weights == [] then 0 else Total(weights[..|weights| - 1]) + weights[|weights| - 1]
  }

  lemma {:induction false} TotalNonNegative(weights: seq<int>)
    requires forall i :: 0 <= i < |weights| ==> weights[i] >= 0
    ensures Total(weights) >= 0
    decreases |weights|
  {
    if weights != [] {
      TotalNonNegative(weights[..|weights| - 1]);
    }
  }

  // The walks look vertices up one at a time. Other handlers act before each lookup; they keep
  // `keeps`, and they change no tip of a vertex that is there.

  /** Other handlers keep `keeps` and the tips of every vertex that is there. */
  ghost function Onward(keeps: Graph -> bool): (Graph, Graph) -> bool {
    (g, g') => (keeps(g) ==> keeps(g')) && Extends(TipsOf(g), TipsOf(g'))
  }

  lemma {:induction false} OnwardReflexive(keeps: Graph -> bool)
    ensures forall g :: Onward(keeps)(g, g)
  {
    forall g: Graph
      ensures Onward(keeps)(g, g)
    {
      assert Extends(TipsOf(g), TipsOf(g));
    }
  }

  /** w is the weight of h in some graph the walk may find. */
  ghost predicate ReadWhile(keeps: Graph -> bool, h: Hash, w: int) {
    exists g: Graph :: ReadsIn(keeps, g, h, w)
  }

  ghost predicate ReadsIn(keeps: Graph -> bool, g: Graph, h: Hash, w: int) {
    keeps(g) && w == WeightIn(g, h)
  }

  ghost predicate AllReadWhile(keeps: Graph -> bool, hashes: seq<Hash>, weights: seq<int>) {
    |weights| == |hashes| && forall i :: 0 <= i < |hashes| ==> ReadWhile(keeps, hashes[i], weights[i])
  }

  /** The answers of rand.Intn to one call: within range for every positive argument. */
  ghost predicate IsIntn(intn: int -> int) {
    forall n :: n > 0 ==> 0 <= intn(n) < n
  }

  /** The total of the first n weights. */
  function Running(weights: seq<int>, n: nat): int
    requires n <= |weights|
  {
    Total(weights[..n])
  }

  /** Entry i is the first at which the running total of the weights exceeds `random`. */
  predicate PickedBy(weights: seq<int>, random: int, i: nat) {
    && i < |weights| && random < Running(weights, i + 1)
    && forall n: nat :: 1 <= n <= i ==> Running(weights, n) <= random
  }

  /** Panicked where rand.Intn is asked for a number below zero or less. */
  datatype Pick = Panicked | Picked(neighbour: Option<Hash>)

  /** The first loop: one locked lookup for each neighbour. */
  method ReadWeights(dag: DAG, neighbours: seq<Hash>, ghost keeps: Graph -> bool)
    returns (weights: seq<int>, totalWeight: int)
    requires keeps(dag.graph)
    modifies dag
    ensures keeps(dag.graph) && Extends(old(TipsOf(dag.graph)), TipsOf(dag.graph))
    ensures AllReadWhile(keeps, neighbours, weights) && totalWeight == Total(weights)
  {
    OnwardReflexive(keeps);
    weights := [];
    totalWeight := 0;
    for i := 0 to |neighbours|
      invariant keeps(dag.graph) && Extends(old(TipsOf(dag.graph)), TipsOf(dag.graph))
      invariant AllReadWhile(keeps, neighbours[..i], weights) && totalWeight == Total(weights)
    {
      OtherHandlers(dag, Onward(keeps));
      var w := if neighbours[i] in dag.graph then dag.graph[neighbours[i]].weight else 0;
      assert ReadsIn(keeps, dag.graph, neighbours[i], w);
      assert (weights + [w])[..i] == weights;
      weights := weights + [w];
      totalWeight := totalWeight + w;
    }
    assert neighbours[..|neighbours|] == neighbours;
  }

  /** The second loop, for a number drawn below the total: it picks unless there is nothing to pick from. */
  method PickAt(weights: seq<int>, random: int) returns (picked: Option<nat>)
    requires -1 <= random < Total(weights)
    ensures picked.None? ==> forall n: nat :: 1 <= n <= |weights| ==> Running(weights, n) <= random
    ensures picked.Some? ==> PickedBy(weights, random, picked.value)
    ensures picked.None? <==> weights == []
  {
    picked := None;
    var currWeight := 0;
    for i := 0 to |weights|
      invariant picked.None? && currWeight == Running(weights, i)
      invariant forall n: nat :: 1 <= n <= i ==> Running(weights, n) <= random
    {
      assert weights[..i + 1][..i] == weights[..i];
      currWeight := currWeight + weights[i];
      if random < currWeight {
        picked := Some(i);
        break;
      }
    }
    assert picked.None? ==> weights[..|weights|] == weights;
  }

  /** y is the member of the list the number drawn picks; one without positive weight only if it comes first. */
  ghost predicate PicksFrom(hashes: seq<Hash>, weights: seq<int>, random: int, y: Hash) {
    exists i :: 0 <= i < |hashes| && PickedBy(weights, random, i) && y == hashes[i] && (i == 0 || weights[i] > 0)
  }

  lemma {:induction false} PickedFrom(hashes: seq<Hash>, weights: seq<int>, random: int, i: nat)
    requires |hashes| == |weights| && PickedBy(weights, random, i)
    ensures PicksFrom(hashes, weights, random, hashes[i])
  {
    assert weights[..i + 1][..i] == weights[..i];
    assert i > 0 ==> Running(weights, i) <= random;
  }

  /**
   The weighted pick over the weights as they were read: it panics exactly on a negative total; else it
   is the member of a non-empty list at which the running total passes the number drawn, and one read
   without positive weight only if it comes first.
   */
  method GetNeighbourWithProbability(dag: DAG, neighbours: seq<Hash>, intn: int -> int, ghost keeps: Graph -> bool)
    returns (pick: Pick, ghost read: seq<int>)
    requires IsIntn(intn) && keeps(dag.graph)
    modifies dag
    ensures keeps(dag.graph) && Extends(old(TipsOf(dag.graph)), TipsOf(dag.graph))
    ensures AllReadWhile(keeps, neighbours, read)
    ensures pick.Panicked? <==> Total(read) < 0
    ensures pick.Picked? ==> (pick.neighbour.None? <==> neighbours == [])
    ensures pick.Picked? && pick.neighbour.Some? ==>
      PicksFrom(neighbours, read, intn(Total(read) + 1) - 1, pick.neighbour.value)
  {
    var weights, totalWeight := ReadWeights(dag, neighbours, keeps);
    read := weights;
    if totalWeight + 1 <= 0 {
      pick := Panicked;
      return;
    }
    var random := intn(totalWeight + 1) - 1;
    var picked := PickAt(weights, random);
    match picked
    case None => pick := Picked(None);
    case Some(i) =>
      PickedFrom(neighbours, weights, random, i);
      pick := Picked(Some(neighbours[i]));
  }

  /** Some readings of weights add up to less than zero. */
  ghost predicate NegativeTotal(keeps: Graph -> bool) {
    exists hashes, weights :: NegativeReadings(keeps, hashes, weights)
  }

  ghost predicate NegativeReadings(keeps: Graph -> bool, hashes: seq<Hash>, weights: seq<int>) {
    AllReadWhile(keeps, hashes, weights) && Total(weights) < 0
  }

  /** With no negative weight, the case in every run whose vertices arrive without one, no walk panics. */
  lemma {:induction false} NoNegativeTotal(keeps: Graph -> bool)
    requires forall g: Graph, h :: keeps(g) && h in g ==> g[h].weight >= 0
    ensures !NegativeTotal(keeps)
  {
    forall hashes, weights | AllReadWhile(keeps, hashes, weights)
      ensures Total(weights) >= 0
    {
      forall i | 0 <= i < |weights|
        ensures weights[i] >= 0
      {
        assert ReadWhile(keeps, hashes[i], weights[i]);
        var g :| ReadsIn(keeps, g, hashes[i], weights[i]);
      }
      TotalNonNegative(weights);
    }
  }

  /** y is listed as a neighbour of x in some graph the walk may find. */
  ghost predicate ListedWhile(keeps: Graph -> bool, x: Hash, y: Hash) {
    exists g: Graph :: keeps(g) && x in g && y in g[x].neighbours
  }

  /** k steps from neighbour to neighbour, each read in some such graph, lead from h up to x. */
  ghost predicate Climbs(keeps: Graph -> bool, h: Hash, x: Hash, k: nat)
    decreases k
  {
    if k == 0 then h == x
    else exists y :: ListedWhile(keeps, h, y) && Climbs(keeps, y, x, k - 1)
  }

  /** Every neighbour that is ever listed is an approver at the time. */
  ghost predicate Approving(keeps: Graph -> bool) {
    forall g :: keeps(g) ==> NeighboursApprove(g)
  }

  /** Fewer than n steps led up from h to x; over true neighbour lists they are tip hops back down in t. */
  ghost predicate MetWithin(keeps: Graph -> bool, t: TipMap, h: Hash, x: Hash, n: nat) {
    exists k: nat :: k < n && Climbs(keeps, h, x, k) && (Approving(keeps) ==> Hops(t, x, h, k))
  }

  lemma {:induction false} MetLater(keeps: Graph -> bool, t: TipMap, t': TipMap, h: Hash, x: Hash, n: nat)
    requires MetWithin(keeps, t, h, x, n) && Extends(t, t')
    ensures MetWithin(keeps, t', h, x, n)
  {
    var k: nat :| k < n && Climbs(keeps, h, x, k) && (Approving(keeps) ==> Hops(t, x, h, k));
    if Approving(keeps) {
      HopsExtend(t, t', x, h, k);
    }
  }

  lemma {:induction false} HopsExtend(t: TipMap, t': TipMap, a: Hash, b: Hash, n: nat)
    requires Extends(t, t') && Hops(t, a, b, n)
    ensures Hops(t', a, b, n)
    decreases n
  {
    if n > 0 {
      HopsExtend(t, t', if Hops(t, t[a].left, b, n - 1) then t[a].left else t[a].right, b, n - 1);
    }
  }

  /** One step up in the graph g, and from there on to x by the time the tips are t. */
  lemma {:induction false} MetAbove(keeps: Graph -> bool, g: Graph, t: TipMap, h: Hash, y: Hash, x: Hash, n: nat)
    requires keeps(g) && h in g && y in g[h].neighbours && Extends(TipsOf(g), t) && n > 0
    requires MetWithin(keeps, t, y, x, n - 1)
    ensures MetWithin(keeps, t, h, x, n)
  {
    var k: nat :| k < n - 1 && Climbs(keeps, y, x, k) && (Approving(keeps) ==> Hops(t, x, y, k));
    var m := k + 1;
    assert ListedWhile(keeps, h, y) && Climbs(keeps, y, x, m - 1);
    assert Climbs(keeps, h, x, m);
    if Approving(keeps) {
      assert Edge(TipsOf(g), y, h) && Edge(t, y, h);
      EdgeHop(t, y, h);
      HopsCompose(t, x, y, h, k, 1);
      assert Hops(t, x, h, m);
    }
  }

  /** A pick of y at x: the list was read in one such graph, the weights in such graphs. */
  ghost predicate StepWhile(keeps: Graph -> bool, intn: int -> int, x: Hash, y: Hash) {
    exists g, weights, i :: PicksIn(keeps, intn, g, x, y, weights, i)
  }

  ghost predicate PicksIn(keeps: Graph -> bool, intn: int -> int, g: Graph, x: Hash, y: Hash,
                          weights: seq<int>, i: nat)
  {
    && keeps(g) && x in g && AllReadWhile(keeps, g[x].neighbours, weights)
    && PickedBy(weights, intn(Total(weights) + 1) - 1, i) && g[x].neighbours[i] == y
  }

  /** No neighbour of x is listed, at some time. */
  ghost predicate EndsWhile(keeps: Graph -> bool, x: Hash) {
    exists g: Graph :: EndsIn(keeps, g, x)
  }

  ghost predicate EndsIn(keeps: Graph -> bool, g: Graph, x: Hash) {
    keeps(g) && (x in g ==> g[x].neighbours == [])
  }

  /**
   A walk of at most len vertices from start, each picked at the one before, that ends early only where
   no neighbour is listed; rand(k) answers the draw with k vertices to go.
   */
  ghost predicate IsWalk(keeps: Graph -> bool, rand: nat -> int -> int, walk: seq<Hash>, start: Hash, len: nat)
    decreases len
  {
    && len > 0 && walk != [] && walk[0] == start
    && if |walk| == 1 then len == 1 || EndsWhile(keeps, start)
       else StepWhile(keeps, rand(len), start, walk[1]) && IsWalk(keeps, rand, walk[1..], walk[1], len - 1)
  }

  /** Go's visited[x]: 0 for a missing key. */
  function Seen(count: map<Hash, nat>, x: Hash): nat {
    if x in count then count[x] else 0
  }

  /** The counts after a walk, entry by entry. */
  ghost predicate Counted(before: map<Hash, nat>, after: map<Hash, nat>, walk: seq<Hash>) {
    && (forall x :: Seen(after, x) == Seen(before, x) + multiset(walk)[x])
    && after.Keys == before.Keys + Elements(walk)
  }

  lemma {:induction false} FirstVisit(before: map<Hash, nat>, after: map<Hash, nat>, h: Hash)
    requires after == before[h := Seen(before, h) + 1]
    ensures Counted(before, after, [h])
  {}

  lemma {:induction false} LongerWalk(before: map<Hash, nat>, first: map<Hash, nat>, after: map<Hash, nat>,
                                      h: Hash, rest: seq<Hash>)
    requires Counted(before, first, [h]) && Counted(first, after, rest)
    ensures Counted(before, after, [h] + rest)
  {
    assert multiset([h] + rest) == multiset([h]) + multiset(rest);
    assert Elements([h] + rest) == Elements([h]) + Elements(rest);
  }

  lemma {:induction false} PickIsStep(keeps: Graph -> bool, intn: int -> int, g: Graph, x: Hash, y: Hash,
                                      read: seq<int>)
    requires keeps(g) && x in g && AllReadWhile(keeps, g[x].neighbours, read)
    requires PicksFrom(g[x].neighbours, read, intn(Total(read) + 1) - 1, y)
    ensures StepWhile(keeps, intn, x, y)
    ensures y in g[x].neighbours
  {
    var i :| 0 <= i < |g[x].neighbours| && PickedBy(read, intn(Total(read) + 1) - 1, i) && y == g[x].neighbours[i];
    assert PicksIn(keeps, intn, g, x, y, read, i);
  }

  lemma {:induction false} MetStart(keeps: Graph -> bool, t: TipMap, h: Hash, n: nat)
    requires n > 0
    ensures MetWithin(keeps, t, h, h, n)
  {
    assert Climbs(keeps, h, h, 0) && Hops(t, h, h, 0);
  }

  /** Where a walk goes on from a vertex. */
  datatype Way = Nowhere | Crash | Up(next: Hash)

  /** The lookup of one vertex of the walk and the pick; g is the graph the vertex was looked up in. */
  method NextUp(dag: DAG, h: Hash, intn: int -> int, ghost keeps: Graph -> bool)
    returns (way: Way, ghost g: Graph)
    requires IsIntn(intn) && keeps(dag.graph)
    modifies dag
    ensures keeps(dag.graph) && Extends(old(TipsOf(dag.graph)), TipsOf(dag.graph))
    ensures way.Nowhere? ==> EndsWhile(keeps, h)
    ensures way.Crash? ==> NegativeTotal(keeps)
    ensures way.Up? ==>
      && StepWhile(keeps, intn, h, way.next)
      && keeps(g) && h in g && way.next in g[h].neighbours && Extends(TipsOf(g), TipsOf(dag.graph))
  {
    OnwardReflexive(keeps);
    OtherHandlers(dag, Onward(keeps));
    g := dag.graph;
    if h in dag.graph {
      var neighbours := dag.graph[h].neighbours;
      if |neighbours| == 0 {
        assert EndsIn(keeps, g, h);
        way := Nowhere;
        return;
      }
      var pick;
      ghost var read;
      pick, read := GetNeighbourWithProbability(dag, neighbours, intn, keeps);
      if pick.Panicked? {
        assert NegativeReadings(keeps, neighbours, read);
        way := Crash;
        return;
      }
      PickIsStep(keeps, intn, g, h, pick.neighbour.value, read);
      way := Up(pick.neighbour.value);
    } else {
      assert EndsIn(keeps, g, h);
      way := Nowhere;
    }
  }

  lemma {:induction false} WalkGrows(keeps: Graph -> bool, rand: nat -> int -> int, h: Hash, rest: seq<Hash>, len: nat)
    requires len > 0 && (rest != [] ==> IsWalk(keeps, rand, rest, rest[0], len - 1))
    requires if rest == [] then len == 1 || EndsWhile(keeps, h) else StepWhile(keeps, rand(len), h, rest[0])
    ensures IsWalk(keeps, rand, [h] + rest, h, len)
  {
    var walk := [h] + rest;
    assert walk[1..] == rest;
  }

  /** walk is what the call visits, in this order; it is complete unless the call panics. */
  method RandomWalk(dag: DAG, hash: Option<Hash>, traverseLen: nat, visited: Visits,
                    rand: nat -> int -> int, ghost keeps: Graph -> bool)
    returns (panicked: bool, ghost walk: seq<Hash>)
    requires keeps(dag.graph) && forall k :: IsIntn(rand(k))
    modifies dag, visited
    ensures keeps(dag.graph) && Extends(old(TipsOf(dag.graph)), TipsOf(dag.graph))
    ensures panicked ==> NegativeTotal(keeps)
    ensures Counted(old(visited.count), visited.count, walk)
    ensures hash.None? || traverseLen == 0 ==> walk == []
    ensures hash.Some? && traverseLen > 0 ==> walk != [] && walk[0] == hash.value
    ensures !panicked && walk != [] ==> IsWalk(keeps, rand, walk, hash.value, traverseLen)
    ensures forall x :: x in walk ==> MetWithin(keeps, TipsOf(dag.graph), hash.value, x, traverseLen)
    decreases traverseLen
  {
    panicked, walk := false, [];
    if hash.None? || traverseLen == 0 {
      return;
    }
    var h := hash.value;
    visited.count := visited.count[h := (if h in visited.count then visited.count[h] else 0) + 1];
    ghost var first := visited.count;
    FirstVisit(old(visited.count), first, h);
    var way;
    ghost var g;
    way, g := NextUp(dag, h, rand(traverseLen), keeps);
    panicked := way.Crash?;
    ghost var rest: seq<Hash> := [];
    if way.Up? {
      panicked, rest := RandomWalk(dag, Some(way.next), traverseLen - 1, visited, rand, keeps);
    }
    LongerWalk(old(visited.count), first, visited.count, h, rest);
    walk := [h] + rest;
    if !panicked {
      WalkGrows(keeps, rand, h, rest, traverseLen);
    }
    MetStart(keeps, TipsOf(dag.graph), h, traverseLen);
    forall x | x in rest
      ensures MetWithin(keeps, TipsOf(dag.graph), h, x, traverseLen)
    {
      MetAbove(keeps, g, TipsOf(dag.graph), h, way.next, x, traverseLen);
    }
  }

  /** x was met on a walk up from a member of the list. */
  ghost predicate MetFrom(keeps: Graph -> bool, t: TipMap, list: seq<Hash>, x: Hash) {
    exists h :: h in list && MetWithin(keeps, t, h, x, BIT_LEN)
  }

  ghost predicate AllMet(keeps: Graph -> bool, t: TipMap, list: seq<Hash>, count: map<Hash, nat>) {
    forall x :: x in count ==> count[x] > 0 && MetFrom(keeps, t, list, x)
  }

  lemma {:induction false} AllMetLater(keeps: Graph -> bool, t: TipMap, t': TipMap, list: seq<Hash>,
                                       h: Hash, count: map<Hash, nat>, count': map<Hash, nat>, walk: seq<Hash>)
    requires AllMet(keeps, t, list, count) && Extends(t, t') && h in list
    requires forall x :: x in walk ==> MetWithin(keeps, t', h, x, BIT_LEN)
    requires Counted(count, count', walk)
    ensures AllMet(keeps, t', list, count')
  {
    forall x | x in count'
      ensures count'[x] > 0 && MetFrom(keeps, t', list, x)
    {
      assert Seen(count', x) == Seen(count, x) + multiset(walk)[x];
      if x in count {
        var k :| k in list && MetWithin(keeps, t, k, x, BIT_LEN);
        MetLater(keeps, t, t', k, x, BIT_LEN);
      } else {
        assert x in walk;
      }
    }
  }

  /** How often x occurs in the walks from one entry. */
  function RowTally(row: seq<seq<Hash>>, x: Hash): nat {
    if row == [] then 0 else RowTally(row[..|row| - 1], x) + multiset(row[|row| - 1])[x]
  }

  /** How often x occurs in all the walks. */
  function Tally(walks: seq<seq<seq<Hash>>>, x: Hash): nat {
    if walks == [] then 0 else Tally(walks[..|walks| - 1], x) + RowTally(walks[|walks| - 1], x)
  }

  /** Complete walks from start, as many as there are. */
  ghost predicate AreWalks(keeps: Graph -> bool, rand: nat -> nat -> int -> int, row: seq<seq<Hash>>, start: Hash) {
    forall j :: 0 <= j < |row| ==> IsWalk(keeps, rand(j), row[j], start, BIT_LEN)
  }

  /** `iterations` walks from every entry of the list. */
  ghost predicate AreAllWalks(keeps: Graph -> bool, rand: nat -> nat -> nat -> int -> int,
                              walks: seq<seq<seq<Hash>>>, list: seq<Hash>, iterations: nat)
  {
    |walks| == |list| &&
    forall i :: 0 <= i < |list| ==> |walks[i]| == iterations && AreWalks(keeps, rand(i), walks[i], list[i])
  }

  /** The counts hold the walks of the row so far. */
  ghost predicate RowCounted(before: map<Hash, nat>, after: map<Hash, nat>, row: seq<seq<Hash>>) {
    forall x :: Seen(after, x) == Seen(before, x) + RowTally(row, x)
  }

  lemma {:induction false} RowGrows(before: map<Hash, nat>, count: map<Hash, nat>, after: map<Hash, nat>,
                                    row: seq<seq<Hash>>, walk: seq<Hash>)
    requires RowCounted(before, count, row) && Counted(count, after, walk)
    ensures RowCounted(before, after, row + [walk])
  {
    var longer := row + [walk];
    assert longer[..|longer| - 1] == row;
    forall x
      ensures Seen(after, x) == Seen(before, x) + RowTally(longer, x)
    {
      assert Seen(count, x) == Seen(before, x) + RowTally(row, x);
    }
  }

  lemma {:induction false} WalksGrow(keeps: Graph -> bool, rand: nat -> nat -> int -> int, row: seq<seq<Hash>>,
                                     walk: seq<Hash>, start: Hash)
    requires AreWalks(keeps, rand, row, start) && IsWalk(keeps, rand(|row|), walk, start, BIT_LEN)
    ensures AreWalks(keeps, rand, row + [walk], start)
  {}

  /** The walks from one entry. */
  method WalkFrom(dag: DAG, hash: Hash, iterations: nat, visited: Visits, rand: nat -> nat -> int -> int,
                  ghost keeps: Graph -> bool, ghost list: seq<Hash>)
    returns (panicked: bool, ghost row: seq<seq<Hash>>)
    requires keeps(dag.graph) && (forall j, k :: IsIntn(rand(j)(k))) && hash in list
    requires AllMet(keeps, TipsOf(dag.graph), list, visited.count)
    modifies dag, visited
    ensures keeps(dag.graph) && Extends(old(TipsOf(dag.graph)), TipsOf(dag.graph))
    ensures panicked ==> NegativeTotal(keeps)
    ensures !panicked ==> |row| == iterations && AreWalks(keeps, rand, row, hash)
    ensures RowCounted(old(visited.count), visited.count, row)
    ensures AllMet(keeps, TipsOf(dag.graph), list, visited.count)
  {
    row := [];
    for j := 0 to iterations
      invariant keeps(dag.graph) && Extends(old(TipsOf(dag.graph)), TipsOf(dag.graph))
      invariant |row| == j && AreWalks(keeps, rand, row, hash)
      invariant RowCounted(old(visited.count), visited.count, row)
      invariant AllMet(keeps, TipsOf(dag.graph), list, visited.count)
    {
      ghost var t, count := TipsOf(dag.graph), visited.count;
      ghost var walk;
      panicked, walk := RandomWalk(dag, Some(hash), BIT_LEN, visited, rand(j), keeps);
      AllMetLater(keeps, t, TipsOf(dag.graph), list, hash, count, visited.count, walk);
      RowGrows(old(visited.count), count, visited.count, row, walk);
      if !panicked {
        WalksGrow(keeps, rand, row, walk, hash);
      }
      row := row + [walk];
      if panicked {
        return;
      }
    }
    panicked := false;
  }

  /** Every count is the number of times the walks met the vertex. */
  ghost predicate CountsAre(count: map<Hash, nat>, walks: seq<seq<seq<Hash>>>) {
    forall x :: Seen(count, x) == Tally(walks, x) && (x in count <==> Tally(walks, x) > 0)
  }

  lemma {:induction false} CountsGrow(before: map<Hash, nat>, after: map<Hash, nat>, walks: seq<seq<seq<Hash>>>,
                                      row: seq<seq<Hash>>)
    requires CountsAre(before, walks) && RowCounted(before, after, row)
    requires forall x :: x in after ==> after[x] > 0
    ensures CountsAre(after, walks + [row])
  {
    var more := walks + [row];
    assert more[..|more| - 1] == walks;
    forall x
      ensures Seen(after, x) == Tally(more, x)
    {
      assert Seen(before, x) == Tally(walks, x);
    }
  }

  lemma {:induction false} AllWalksGrow(keeps: Graph -> bool, rand: nat -> nat -> nat -> int -> int,
                                        walks: seq<seq<seq<Hash>>>, row: seq<seq<Hash>>, list: seq<Hash>, i: nat,
                                        iterations: nat)
    requires i < |list| && AreAllWalks(keeps, rand, walks, list[..i], iterations)
    requires |row| == iterations && AreWalks(keeps, rand(i), row, list[i])
    ensures AreAllWalks(keeps, rand, walks + [row], list[..i + 1], iterations)
  {}

  /** The walks: `iterations` of them from every entry of the list. */
  method CountVisits(dag: DAG, pruneList: seq<Hash>, iterations: nat, rand: nat -> nat -> nat -> int -> int,
                     ghost keeps: Graph -> bool)
    returns (visited: Visits, panicked: bool, ghost walks: seq<seq<seq<Hash>>>)
    requires keeps(dag.graph) && forall i, j, k :: IsIntn(rand(i)(j)(k))
    modifies dag
    ensures fresh(visited)
    ensures keeps(dag.graph) && Extends(old(TipsOf(dag.graph)), TipsOf(dag.graph))
    ensures panicked ==> NegativeTotal(keeps)
    ensures !panicked ==> AreAllWalks(keeps, rand, walks, pruneList, iterations)
    ensures CountsAre(visited.count, walks)
    ensures AllMet(keeps, TipsOf(dag.graph), pruneList, visited.count)
  {
    visited := new Visits();
    walks := [];
    for i := 0 to |pruneList|
      invariant fresh(visited) && keeps(dag.graph) && Extends(old(TipsOf(dag.graph)), TipsOf(dag.graph))
      invariant AreAllWalks(keeps, rand, walks, pruneList[..i], iterations)
      invariant CountsAre(visited.count, walks)
      invariant AllMet(keeps, TipsOf(dag.graph), pruneList, visited.count)
    {
      ghost var row, count := [], visited.count;
      panicked, row := WalkFrom(dag, pruneList[i], iterations, visited, rand(i), keeps, pruneList);
      CountsGrow(count, visited.count, walks, row);
      if !panicked {
        AllWalksGrow(keeps, rand, walks, row, pruneList, i, iterations);
      }
      walks := walks + [row];
      if panicked {
        return;
      }
    }
    assert pruneList[..|pruneList|] == pruneList;
    panicked := false;
  }

  /** The search for the most visited vertex; "" stands for no vertex. */
  method MostVisited(count: map<Hash, nat>) returns (adamPoint: Option<Hash>)
    requires forall x :: x in count ==> count[x] > 0
    ensures adamPoint.None? <==> count.Keys == {}
    ensures adamPoint.Some? ==>
      adamPoint.value in count && forall x :: x in count ==> count[x] <= count[adamPoint.value]
  {
    var maxVisits := 0;
    adamPoint := None;
    var rest := count.Keys;
    while rest != {}
      invariant rest <= count.Keys
      invariant forall x :: x in count.Keys - rest ==> count[x] <= maxVisits
      invariant adamPoint.None? ==> maxVisits == 0 && rest == count.Keys
      invariant adamPoint.Some? ==> adamPoint.value in count && count[adamPoint.value] == maxVisits
      decreases rest
    {
      var hash :| hash in rest;
      rest := rest - {hash};
      if count[hash] > maxVisits {
        maxVisits := count[hash];
        adamPoint := Some(hash);
      }
    }
  }

  lemma {:induction false} RowCounts(row: seq<seq<Hash>>, x: Hash, j: nat)
    requires j < |row| && x in row[j]
    ensures RowTally(row, x) > 0
    decreases |row|
  {
    if j < |row| - 1 {
      RowCounts(row[..|row| - 1], x, j);
    }
  }

  lemma {:induction false} AllCount(walks: seq<seq<seq<Hash>>>, x: Hash, i: nat)
    requires i < |walks| && RowTally(walks[i], x) > 0
    ensures Tally(walks, x) > 0
    decreases |walks|
  {
    if i < |walks| - 1 {
      AllCount(walks[..|walks| - 1], x, i);
    }
  }

  lemma {:induction false} NoWalkNoCount(walks: seq<seq<seq<Hash>>>, x: Hash)
    requires forall i :: 0 <= i < |walks| ==> walks[i] == []
    ensures Tally(walks, x) == 0
    decreases |walks|
  {
    if walks != [] {
      NoWalkNoCount(walks[..|walks| - 1], x);
    }
  }

  /** visits holds the counts the choice was made from, and walks the walks they count. */
  method FindAdamPoint(dag: DAG, pruneList: seq<Hash>, iterations: nat, rand: nat -> nat -> nat -> int -> int,
                       ghost keeps: Graph -> bool)
    returns (adamPoint: Option<Hash>, panicked: bool, ghost visits: map<Hash, nat>, ghost walks: seq<seq<seq<Hash>>>)
    requires keeps(dag.graph) && forall i, j, k :: IsIntn(rand(i)(j)(k))
    modifies dag
    ensures keeps(dag.graph) && Extends(old(TipsOf(dag.graph)), TipsOf(dag.graph))
    ensures panicked ==> NegativeTotal(keeps)
    ensures !panicked ==> AreAllWalks(keeps, rand, walks, pruneList, iterations)
    ensures !panicked ==> (adamPoint.None? <==> pruneList == [] || iterations == 0)
    ensures CountsAre(visits, walks)
    ensures AllMet(keeps, TipsOf(dag.graph), pruneList, visits)
    ensures adamPoint.Some? ==>
      adamPoint.value in visits && forall x :: x in visits ==> visits[x] <= visits[adamPoint.value]
  {
    var visited;
    visited, panicked, walks := CountVisits(dag, pruneList, iterations, rand, keeps);
    visits := visited.count;
    if panicked {
      adamPoint := None;
      return;
    }
    adamPoint := MostVisited(visited.count);
    if pruneList != [] && iterations > 0 {
      assert AreWalks(keeps, rand(0), walks[0], pruneList[0]);
      RowCounts(walks[0], pruneList[0], 0);
      AllCount(walks, pruneList[0], 0);
    } else {
      forall x
        ensures x !in visits
      {
        NoWalkNoCount(walks, x);
      }
    }
  }

  // ----- walks that have no choice

  /** Vertex 4 over vertices 2 and 3 over genesis 1. */
  function Diamond(): Graph {
    map[Hash(1) := Vertex(Transaction(Hash(1), ZERO, ZERO, 0), [Hash(2), Hash(3)], 4, false),
        Hash(2) := Vertex(Transaction(Hash(2), Hash(1), Hash(1), 0), [Hash(4)], 2, false),
        Hash(3) := Vertex(Transaction(Hash(3), Hash(1), Hash(1), 0), [Hash(4)], 2, false),
        Hash(4) := Vertex(Transaction(Hash(4), Hash(2), Hash(3), 0), [], 1, false)]
  }

  lemma {:induction false} DiamondWalk(rand: nat -> int -> int, walk: seq<Hash>, start: Hash)
    requires start == Hash(2) || start == Hash(3)
    requires IsWalk(g => g == Diamond(), rand, walk, start, BIT_LEN)
    ensures walk == [start, Hash(4)]
  {
    var keeps: Graph -> bool := g => g == Diamond();
    assert |walk| > 1;
    var next := walk[1];
    var g, weights, i :| PicksIn(keeps, rand(BIT_LEN), g, start, next, weights, i);
    assert next == Hash(4);
    assert walk[1..] == [next];
  }

  lemma {:induction false} SameRow(row: seq<seq<Hash>>, walk: seq<Hash>, x: Hash)
    requires forall j :: 0 <= j < |row| ==> row[j] == walk
    ensures RowTally(row, x) == |row| * multiset(walk)[x]
    decreases |row|
  {
    if row != [] {
      SameRow(row[..|row| - 1], walk, x);
    }
  }

  lemma {:induction false} DiamondRow(rand: nat -> nat -> int -> int, row: seq<seq<Hash>>, start: Hash)
    requires start == Hash(2) || start == Hash(3)
    requires |row| == 5 && AreWalks(g => g == Diamond(), rand, row, start)
    ensures RowTally(row, Hash(4)) == RowTally(row, start) == 5
    ensures forall x :: x != start && x != Hash(4) ==> RowTally(row, x) == 0
  {
    forall j | 0 <= j < |row|
      ensures row[j] == [start, Hash(4)]
    {
      DiamondWalk(rand(j), row[j], start);
    }
    forall x
      ensures RowTally(row, x) == 5 * multiset([start, Hash(4)])[x]
    {
      SameRow(row, [start, Hash(4)], x);
    }
  }

  lemma {:induction false} DiamondTally(rand: nat -> nat -> nat -> int -> int, walks: seq<seq<seq<Hash>>>, x: Hash)
    requires AreAllWalks(g => g == Diamond(), rand, walks, [Hash(2), Hash(3)], 5)
    ensures Tally(walks, x) == if x == Hash(2) || x == Hash(3) then 5 else if x == Hash(4) then 10 else 0
  {
    DiamondRow(rand(0), walks[0], Hash(2));
    DiamondRow(rand(1), walks[1], Hash(3));
    TwoRows(walks, x);
  }

  /** Five walks from each of the middle vertices count 10 for the top and 5 for themselves. */
  lemma {:induction false} DiamondCounts(rand: nat -> nat -> nat -> int -> int, walks: seq<seq<seq<Hash>>>,
                                         visits: map<Hash, nat>)
    requires AreAllWalks(g => g == Diamond(), rand, walks, [Hash(2), Hash(3)], 5) && CountsAre(visits, walks)
    ensures visits == map[Hash(2) := 5, Hash(3) := 5, Hash(4) := 10]
  {
    forall x
      ensures Seen(visits, x) == if x == Hash(2) || x == Hash(3) then 5 else if x == Hash(4) then 10 else 0
      ensures x in visits <==> x in {Hash(2), Hash(3), Hash(4)}
    {
      DiamondTally(rand, walks, x);
    }
    ThreeCounts(visits);
  }

  lemma {:induction false} ThreeCounts(visits: map<Hash, nat>)
    requires visits.Keys == {Hash(2), Hash(3), Hash(4)}
    requires Seen(visits, Hash(2)) == 5 && Seen(visits, Hash(3)) == 5 && Seen(visits, Hash(4)) == 10
    ensures visits == map[Hash(2) := 5, Hash(3) := 5, Hash(4) := 10]
  {
    var other: map<Hash, nat> := map[Hash(2) := 5, Hash(3) := 5, Hash(4) := 10];
    assert Hash(2) in visits && Hash(3) in visits && Hash(4) in visits;
    assert visits.Keys == other.Keys;
    forall x | x in visits
      ensures visits[x] == other[x]
    {}
  }

  lemma {:induction false} TwoRows(walks: seq<seq<seq<Hash>>>, x: Hash)
    requires |walks| == 2
    ensures Tally(walks, x) == RowTally(walks[0], x) + RowTally(walks[1], x)
  {
    var one := walks[..1];
    assert one[..0] == [] && one[0] == walks[0];
    assert Tally(one, x) == RowTally(walks[0], x);
  }

  ghost predicate CoversSome(t: TipMap, adam: Hash, list: seq<Hash>) {
    exists h :: h in list && Reaches(t, adam, h)
  }

  /** Over true neighbour lists the Adam point covers an entry of the list, and is in the graph itself. */
  lemma {:induction false} AdamCoversOne(keeps: Graph -> bool, t: TipMap, list: seq<Hash>, adam: Hash)
    requires Approving(keeps) && MetFrom(keeps, t, list, adam)
    ensures CoversSome(t, adam, list)
    ensures Elements(list) <= t.Keys ==> adam in t
  {
    var h :| h in list && MetWithin(keeps, t, h, adam, BIT_LEN);
    var k: nat :| k < BIT_LEN && Climbs(keeps, h, adam, k) && Hops(t, adam, h, k);
    assert Reaches(t, adam, h);
  }
}
