/**
 The transaction DAG as both node types keep it: a Go map from hash to vertex, in which
 every vertex names the two earlier vertices it approves. Reachability only depends on
 those two names, so it is defined over the map's tips alone.
 */
module Dag {

  /** A 32-byte hash, or equally its 64-digit hex string, the form used as a map key. */
  datatype Hash = Hash(value: nat)

  /** The all-zero hash: both tips of the genesis transaction. */
  const ZERO := Hash(0)

  datatype Transaction = Transaction(hash: Hash, leftTip: Hash, rightTip: Hash, timestamp: int)

  datatype Vertex = Vertex(tx: Transaction, neighbours: seq<Hash>, weight: int, confirmed: bool)

  type Graph = map<Hash, Vertex>

  datatype Tips = Tips(left: Hash, right: Hash)

  type TipMap = map<Hash, Tips>

  function TipsOf(g: Graph): TipMap {
    map h | h in g :: Tips(g[h].tx.leftTip, g[h].tx.rightTip)
  }

  /** b is a left or right tip of the in-graph vertex a. */
  predicate Edge(t: TipMap, a: Hash, b: Hash) {
    a in t && (b == t[a].left || b == t[a].right)
  }

  /** There is a tip path of exactly n edges from a to b. */
  predicate Hops(t: TipMap, a: Hash, b: Hash, n: nat)
    decreases n
  {
    if n == 0 then a == b
    else a in t && (Hops(t, t[a].left, b, n - 1) || Hops(t, t[a].right, b, n - 1))
  }

  ghost predicate Reaches(t: TipMap, a: Hash, b: Hash) {
    exists n: nat :: Hops(t, a, b, n)
  }

  ghost predicate ProperlyReaches(t: TipMap, a: Hash, b: Hash) {
    exists n: nat :: n > 0 && Hops(t, a, b, n)
  }

  ghost predicate Acyclic(t: TipMap) {
    forall a, n: nat :: n > 0 ==> !Hops(t, a, a, n)
  }

  /** The in-graph vertices reachable from h, h itself included. */
  ghost function Below(t: TipMap, h: Hash): set<Hash> {
    set x | x in t && Reaches(t, h, x)
  }

  /** A set no edge leaves. */
  ghost predicate Closed(t: TipMap, s: set<Hash>) {
    forall a, b :: a in s && Edge(t, a, b) ==> b in s
  }

  // ----- paths compose and decompose

  lemma {:induction false} HopsCompose(t: TipMap, a: Hash, b: Hash, c: Hash, m: nat, n: nat)
    requires Hops(t, a, b, m) && Hops(t, b, c, n)
    ensures Hops(t, a, c, m + n)
    decreases m
  {
    if m > 0 {
      var next := if Hops(t, t[a].left, b, m - 1) then t[a].left else t[a].right;
      HopsCompose(t, next, b, c, m - 1, n);
    }
  }

  lemma {:induction false} LastEdge(t: TipMap, a: Hash, c: Hash, n: nat) returns (b: Hash)
    requires n > 0 && Hops(t, a, c, n)
    ensures Hops(t, a, b, n - 1) && Edge(t, b, c)
    decreases n
  {
    if n == 1 {
      b := a;
      assert Hops(t, t[a].left, c, 0) || Hops(t, t[a].right, c, 0);
    } else {
      var next := if Hops(t, t[a].left, c, n - 1) then t[a].left else t[a].right;
      b := LastEdge(t, next, c, n - 1);
    }
  }

  lemma {:induction false} EdgeHop(t: TipMap, a: Hash, b: Hash)
    requires Edge(t, a, b)
    ensures Hops(t, a, b, 1) && Reaches(t, a, b) && ProperlyReaches(t, a, b)
  {
    assert Hops(t, b, b, 0);
    assert Hops(t, a, b, 1);
  }

  lemma {:induction false} ReachesSelf(t: TipMap, a: Hash)
    ensures Reaches(t, a, a)
  {
    assert Hops(t, a, a, 0);
  }

  lemma {:induction false} ReachesTrans(t: TipMap, a: Hash, b: Hash, c: Hash)
    requires Reaches(t, a, b) && Reaches(t, b, c)
    ensures Reaches(t, a, c)
    ensures ProperlyReaches(t, a, b) || ProperlyReaches(t, b, c) ==> ProperlyReaches(t, a, c)
  {
    var m: nat :| Hops(t, a, b, m) && (ProperlyReaches(t, a, b) ==> m > 0);
    var n: nat :| Hops(t, b, c, n) && (ProperlyReaches(t, b, c) ==> n > 0);
    HopsCompose(t, a, b, c, m, n);
  }

  lemma {:induction false} ClosedHolds(t: TipMap, s: set<Hash>, a: Hash, b: Hash, n: nat)
    requires Closed(t, s) && a in s && Hops(t, a, b, n)
    ensures b in s
    decreases n
  {
    if n > 0 {
      assert Edge(t, a, t[a].left) && Edge(t, a, t[a].right);
      var next := if Hops(t, t[a].left, b, n - 1) then t[a].left else t[a].right;
      ClosedHolds(t, s, next, b, n - 1);
    }
  }

  /** Whatever a reaches is in every closed set holding a. */
  lemma {:induction false} ClosedContains(t: TipMap, s: set<Hash>, a: Hash, b: Hash)
    requires Closed(t, s) && a in s && Reaches(t, a, b)
    ensures b in s
  {
    var n: nat :| Hops(t, a, b, n);
    ClosedHolds(t, s, a, b, n);
  }

  // ----- acyclic graphs

  lemma {:induction false} AcyclicStrict(t: TipMap, a: Hash, b: Hash)
    requires Acyclic(t) && ProperlyReaches(t, a, b)
    ensures !Reaches(t, b, a)
  {
    if Reaches(t, b, a) {
      ReachesSelf(t, a);
      ReachesTrans(t, a, b, a);
    }
  }

  /** Stepping to a tip strictly shrinks the set of vertices below. */
  lemma {:induction false} BelowShrinks(t: TipMap, a: Hash, b: Hash)
    requires Acyclic(t) && Edge(t, a, b)
    ensures Below(t, b) < Below(t, a)
  {
    EdgeHop(t, a, b);
    forall x | x in Below(t, b)
      ensures x in Below(t, a)
    {
      ReachesTrans(t, a, b, x);
    }
    ReachesSelf(t, a);
    AcyclicStrict(t, a, b);
    assert a in Below(t, a) && a !in Below(t, b);
  }

  /** Below(h) is h together with what lies below its tips. */
  lemma {:induction false} BelowUnfolds(t: TipMap, h: Hash)
    requires h in t
    ensures Below(t, h) == {h} + Below(t, t[h].left) + Below(t, t[h].right)
  {
    assert Edge(t, h, t[h].left) && Edge(t, h, t[h].right);
    ReachesSelf(t, h);
    forall x | x in Below(t, t[h].left) + Below(t, t[h].right)
      ensures x in Below(t, h)
    {
      var tip := if x in Below(t, t[h].left) then t[h].left else t[h].right;
      EdgeHop(t, h, tip);
      ReachesTrans(t, h, tip, x);
    }
    forall x | x in Below(t, h)
      ensures x in {h} + Below(t, t[h].left) + Below(t, t[h].right)
    {
      var n: nat :| Hops(t, h, x, n);
      if n > 0 {
        assert Hops(t, t[h].left, x, n - 1) || Hops(t, t[h].right, x, n - 1);
      }
    }
  }

  // ----- adding a vertex nothing points to

  /** h is not a tip of any vertex of t. */
  predicate Unreferenced(t: TipMap, h: Hash) {
    forall a :: a in t ==> t[a].left != h && t[a].right != h
  }

  lemma {:induction false} ExtendHops(t: TipMap, h: Hash, tips: Tips, a: Hash, b: Hash, n: nat)
    requires h !in t && Unreferenced(t, h) && tips.left != h && tips.right != h
    requires a != h
    ensures Hops(t[h := tips], a, b, n) <==> Hops(t, a, b, n)
    ensures n > 0 && b == h ==> !Hops(t, a, b, n)
    decreases n
  {
    if n > 0 && a in t {
      ExtendHops(t, h, tips, t[a].left, b, n - 1);
      ExtendHops(t, h, tips, t[a].right, b, n - 1);
    }
  }

  lemma {:induction false} ExtendAcyclic(t: TipMap, h: Hash, tips: Tips)
    requires Acyclic(t) && h !in t && Unreferenced(t, h) && tips.left != h && tips.right != h
    ensures Acyclic(t[h := tips])
  {
    var t' := t[h := tips];
    forall a, n: nat | n > 0
      ensures !Hops(t', a, a, n)
    {
      if a == h {
        ExtendHops(t, h, tips, tips.left, h, n - 1);
        ExtendHops(t, h, tips, tips.right, h, n - 1);
        assert !Hops(t', h, h, n);
      } else {
        ExtendHops(t, h, tips, a, a, n);
      }
    }
  }

  /** t' has the vertices of t with the same tips, and maybe more. */
  ghost predicate Extends(t: TipMap, t': TipMap) {
    forall h :: h in t ==> h in t' && t'[h] == t[h]
  }

  // ----- the updates both node types make

  function AddNeighbour(g: Graph, tip: Hash, h: Hash): Graph {
    if tip in g then g[tip := g[tip].(neighbours := g[tip].neighbours + [h])] else g
  }

  /** The graph after the locked section that inserts v and lists it with its tips. */
  function Insert(g: Graph, v: Vertex): Graph {
    var g' := AddNeighbour(g[v.tx.hash := v], v.tx.leftTip, v.tx.hash);
    if v.tx.rightTip == v.tx.leftTip then g' else AddNeighbour(g', v.tx.rightTip, v.tx.hash)
  }

  lemma {:induction false} InsertTips(g: Graph, v: Vertex)
    ensures TipsOf(Insert(g, v)) == TipsOf(g)[v.tx.hash := Tips(v.tx.leftTip, v.tx.rightTip)]
  {}

  /** Insertion neither loses nor alters a vertex, except for the approvers of the two tips. */
  lemma {:induction false} InsertKeeps(g: Graph, v: Vertex, x: Hash)
    requires x in g && x != v.tx.hash
    ensures var y := Insert(g, v);
      && y.Keys == g.Keys + {v.tx.hash}
      && x in y
      && y[x] == g[x].(neighbours :=
           if x == v.tx.leftTip || x == v.tx.rightTip then g[x].neighbours + [v.tx.hash] else g[x].neighbours)
  {}

  /** The inserted vertex itself; it lists itself only if it names itself as a tip. */
  lemma {:induction false} InsertOwn(g: Graph, v: Vertex)
    ensures var y := Insert(g, v);
      && v.tx.hash in y && y[v.tx.hash].tx == v.tx
      && y[v.tx.hash].weight == v.weight && y[v.tx.hash].confirmed == v.confirmed
      && y[v.tx.hash].neighbours == v.neighbours +
           if v.tx.leftTip == v.tx.hash || v.tx.rightTip == v.tx.hash then [v.tx.hash] else []
  {}

  function Heavier(v: Vertex): Vertex {
    v.(weight := v.weight + 1)
  }

  /** The graph with the weights of s raised by one. */
  function RaiseAll(g: Graph, s: set<Hash>): Graph {
    map x | x in g :: if x in g && x in s then Heavier(g[x]) else g[x]
  }

  /** Increments keep every vertex and all of it but the weight, which they raise by one. */
  lemma {:induction false} RaiseAllExactly(g: Graph, s: set<Hash>)
    ensures RaiseAll(g, s).Keys == g.Keys
    ensures forall x :: x in g ==>
      && RaiseAll(g, s)[x].tx == g[x].tx
      && RaiseAll(g, s)[x].neighbours == g[x].neighbours
      && RaiseAll(g, s)[x].confirmed == g[x].confirmed
      && RaiseAll(g, s)[x].weight == if x in s then g[x].weight + 1 else g[x].weight
  {}

  // ----- shared Go containers

  /** The DAG object all handlers share. */
  class DAG {
    var graph: Graph

    constructor ()
      ensures graph == map[]
    {
      graph := map[];
    }
  }

  /**
   Stands for whatever other handlers do while the lock is free: nothing, or anything the relation
   allows between the graph before and after. A caller sees only that, so what is proved holds for
   all such steps.
   */
  method OtherHandlers(dag: DAG, ghost rely: (Graph, Graph) -> bool)
    requires forall g :: rely(g, g)
    modifies dag
    ensures rely(old(dag.graph), dag.graph)
  {}

  /** Other handlers keep what holds of the graph. */
  ghost function Preserving(keeps: Graph -> bool): (Graph, Graph) -> bool {
    (g, g') => keeps(g) ==> keeps(g')
  }

  /** The hashes of u are looked up with the answers of the snapshot t: present or not, and which tips. */
  ghost predicate ReadsAs(g: Graph, t: TipMap, u: set<Hash>) {
    forall h :: h in u ==> (h in g <==> h in t) && (h in g ==> TipsOf(g)[h] == t[h])
  }

  /** No step of another handler changes an answer for u. */
  ghost predicate Fits(keeps: Graph -> bool, t: TipMap, u: set<Hash>) {
    forall g :: keeps(g) ==> ReadsAs(g, t, u)
  }

  /** A Go map[string]bool used as a set and passed by reference. */
  class KeySet {
    var keys: set<Hash>

    constructor ()
      ensures keys == {}
    {
      keys := {};
    }
  }

  function Elements(list: seq<Hash>): (s: set<Hash>)
    ensures forall x :: x in s <==> x in list
  {
    set x | x in list
  }

  /** The loop that stores a list in a fresh map. */
  method KeysOf(list: seq<Hash>) returns (m: KeySet)
    ensures fresh(m) && m.keys == Elements(list)
  {
    m := new KeySet();
    for i := 0 to |list|
      invariant m.keys == Elements(list[..i])
    {
      m.keys := m.keys + {list[i]};
    }
    assert list[..|list|] == list;
  }

  predicate NoRepeats<T(==)>(s: seq<T>) {
    forall i, j :: 0 <= i < j < |s| ==> s[i] != s[j]
  }

  lemma {:induction false} SizeOfElements(s: seq<Hash>)
    requires NoRepeats(s)
    ensures |Elements(s)| == |s|
    decreases |s|
  {
    if s != [] {
      SizeOfElements(s[1..]);
      assert Elements(s) == {s[0]} + Elements(s[1..]);
    }
  }
}
