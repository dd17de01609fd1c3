/**
 The storage node's prune list: the vertices older than the threshold, compressed by
 dropping every member that is a tip of another one, and the depth-first check that
 re-expands the compressed list. The lock is only held for one lookup at a time, so other
 handlers act before each; t is the tip map the list was made from, u the hashes looked up.
 */
module Compression {
  import opened Dag

  /** x is a left or right tip of a member of p. */
  ghost predicate Approved(t: TipMap, p: set<Hash>, x: Hash) {
    exists q :: q in p && Edge(t, q, x)
  }

  /** What compression is for: the members of p that no member of p approves. */
  ghost function Compressed(t: TipMap, p: set<Hash>): set<Hash> {
    set x | x in p && !Approved(t, p, x)
  }

  /** x is reachable from a member of q. */
  ghost predicate Covered(t: TipMap, q: set<Hash>, x: Hash) {
    exists r :: r in q && Reaches(t, r, x)
  }

  /** Everything in p is reachable from a member of q. */
  ghost predicate Covers(t: TipMap, q: set<Hash>, p: set<Hash>) {
    forall x :: x in p ==> Covered(t, q, x)
  }

  // ----- removing children

  /** No tip of v is in s. */
  ghost predicate TipsGone(t: TipMap, v: Hash, s: set<Hash>) {
    v in t ==> t[v].left !in s && t[v].right !in s
  }

  /** Deletion work from state `before` to state `after`: what is gone was approved, and took its tips along. */
  ghost predicate Removed(t: TipMap, before: set<Hash>, after: set<Hash>, approvers: set<Hash>) {
    forall d :: d in before && d !in after ==> TipsGone(t, d, after) && Approved(t, approvers, d)
  }

  lemma {:induction false} RemovedTrans(t: TipMap, a: set<Hash>, b: set<Hash>, c: set<Hash>,
                                        p: set<Hash>, q: set<Hash>, r: set<Hash>)
    requires Removed(t, a, b, p) && Removed(t, b, c, q) && c <= b && p + q <= r
    ensures Removed(t, a, c, r)
  {
    forall d | d in a && d !in c
      ensures TipsGone(t, d, c) && Approved(t, r, d)
    {
      if d !in b {
        assert TipsGone(t, d, b) && Approved(t, p, d);
      } else {
        assert Approved(t, q, d);
      }
    }
  }

  /** Deleting one tip of parent and then what the recursive call deletes. */
  lemma {:induction false} RemovedOne(t: TipMap, approvers: set<Hash>, parent: Hash, tip: Hash,
                   before: set<Hash>, less: set<Hash>, after: set<Hash>)
    requires Edge(t, parent, tip) && parent in approvers && before <= approvers && tip in before
    requires less == before - {tip} && after <= less
    requires Removed(t, less, after, less + {tip}) && TipsGone(t, tip, after)
    ensures Removed(t, before, after, approvers)
  {
    forall d | d in before && d !in after
      ensures TipsGone(t, d, after) && Approved(t, approvers, d)
    {
      if d != tip {
        assert Approved(t, less + {tip}, d);
      }
    }
  }

  method RemoveChildrenRecursive(dag: DAG, pruneMap: KeySet, parent: Hash,
                                 ghost keeps: Graph -> bool, ghost t: TipMap, ghost u: set<Hash>)
    requires keeps(dag.graph) && Fits(keeps, t, u) && parent in u && pruneMap.keys <= u
    modifies dag, pruneMap
    ensures keeps(dag.graph) && pruneMap.keys <= old(pruneMap.keys)
    ensures TipsGone(t, parent, pruneMap.keys)
    ensures Removed(t, old(pruneMap.keys), pruneMap.keys, old(pruneMap.keys) + {parent})
    decreases pruneMap.keys
  {
    OtherHandlers(dag, Preserving(keeps));
    if parent in dag.graph {
      var vertex := dag.graph[parent];
      var leftTip, rightTip := vertex.tx.leftTip, vertex.tx.rightTip;
      assert ReadsAs(dag.graph, t, u);
      assert Edge(t, parent, leftTip) && Edge(t, parent, rightTip);
      ghost var before, approvers := pruneMap.keys, pruneMap.keys + {parent};
      if leftTip in pruneMap.keys {
        pruneMap.keys := pruneMap.keys - {leftTip};
        ghost var less := pruneMap.keys;
        RemoveChildrenRecursive(dag, pruneMap, leftTip, keeps, t, u);
        RemovedOne(t, approvers, parent, leftTip, before, less, pruneMap.keys);
      }
      ghost var mid := pruneMap.keys;
      if rightTip in pruneMap.keys {
        pruneMap.keys := pruneMap.keys - {rightTip};
        ghost var less := pruneMap.keys;
        RemoveChildrenRecursive(dag, pruneMap, rightTip, keeps, t, u);
        RemovedOne(t, approvers, parent, rightTip, mid, less, pruneMap.keys);
      }
      RemovedTrans(t, before, mid, pruneMap.keys, approvers, approvers, approvers);
    } else {
      assert ReadsAs(dag.graph, t, u);
    }
  }

  /** Once every survivor's tips are gone too, exactly the approved members are gone. */
  lemma {:induction false} AllRemoved(t: TipMap, p: set<Hash>, left: set<Hash>)
    requires left <= p && Removed(t, p, left, p)
    requires forall v :: v in left ==> TipsGone(t, v, left)
    ensures left == Compressed(t, p)
  {
    assert forall q :: q in p ==> TipsGone(t, q, left);
  }

  /** Whatever others do meanwhile, the result is the compression of the list over the snapshot. */
  method RemoveChildrenFromPruneList(dag: DAG, pruneList: seq<Hash>,
                                     ghost keeps: Graph -> bool, ghost t: TipMap, ghost u: set<Hash>)
    returns (compressed: seq<Hash>)
    requires keeps(dag.graph) && Fits(keeps, t, u) && Elements(pruneList) <= u
    modifies dag
    ensures keeps(dag.graph) && NoRepeats(compressed)
    ensures Elements(compressed) == Compressed(t, Elements(pruneList))
  {
    ghost var p := Elements(pruneList);
    var pruneMap := KeysOf(pruneList);
    var ranged: set<Hash> := {};
    // Go's range: any key still present and not yet produced comes next
    while pruneMap.keys - ranged != {}
      invariant keeps(dag.graph) && pruneMap.keys <= p && ranged <= p
      invariant forall v :: v in ranged ==> TipsGone(t, v, pruneMap.keys)
      invariant Removed(t, p, pruneMap.keys, p)
      decreases p - ranged
    {
      var hash :| hash in pruneMap.keys - ranged;
      ranged := ranged + {hash};
      ghost var before := pruneMap.keys;
      RemoveChildrenRecursive(dag, pruneMap, hash, keeps, t, u);
      RemovedTrans(t, p, before, pruneMap.keys, p, before + {hash}, p);
    }
    forall v | v in pruneMap.keys
      ensures v in ranged
    {
      assert v !in pruneMap.keys - ranged;
    }
    AllRemoved(t, p, pruneMap.keys);
    compressed := ListOf(pruneMap);
  }

  /** The loop that appends a map's keys to a list, in Go's arbitrary order. */
  method ListOf(m: KeySet) returns (list: seq<Hash>)
    ensures NoRepeats(list) && Elements(list) == m.keys
  {
    list := [];
    var rest := m.keys;
    while rest != {}
      invariant NoRepeats(list) && rest !! Elements(list) && Elements(list) + rest == m.keys
      decreases rest
    {
      var hash :| hash in rest;
      rest := rest - {hash};
      list := list + [hash];
    }
  }

  // ----- checking a compressed list

  /** The tips of every in-graph member of s are in u. */
  ghost predicate TipsWithin(t: TipMap, s: set<Hash>, u: set<Hash>) {
    forall a, b :: a in s && Edge(t, a, b) ==> b in u
  }

  method AddChildren(dag: DAG, hash: Hash, pruneListMap: KeySet, decompressed: KeySet, visited: KeySet,
                     ghost keeps: Graph -> bool, ghost t: TipMap, ghost u: set<Hash>)
    requires pruneListMap != decompressed && pruneListMap != visited && decompressed != visited
    requires keeps(dag.graph) && Fits(keeps, t, u)
    requires hash in u && visited.keys <= u && Closed(t, u)
    requires decompressed.keys == visited.keys * pruneListMap.keys
    modifies dag, decompressed, visited
    ensures keeps(dag.graph) && old(visited.keys) <= visited.keys <= u && hash in visited.keys
    ensures decompressed.keys == visited.keys * pruneListMap.keys
    ensures TipsWithin(t, visited.keys - old(visited.keys), visited.keys)
    ensures forall x :: x in visited.keys - old(visited.keys) ==> Reaches(t, hash, x)
    decreases u - visited.keys
  {
    if hash in visited.keys {
      return;
    }
    visited.keys := visited.keys + {hash};
    if hash in pruneListMap.keys {
      decompressed.keys := decompressed.keys + {hash};
    }
    ReachesSelf(t, hash);
    OtherHandlers(dag, Preserving(keeps));
    assert ReadsAs(dag.graph, t, u);
    if hash in dag.graph {
      var vertex := dag.graph[hash];
      var leftTip, rightTip := vertex.tx.leftTip, vertex.tx.rightTip;
      assert Edge(t, hash, leftTip) && Edge(t, hash, rightTip);
      AddChildren(dag, leftTip, pruneListMap, decompressed, visited, keeps, t, u);
      ghost var mid := visited.keys;
      AddChildren(dag, rightTip, pruneListMap, decompressed, visited, keeps, t, u);
      forall x | x in visited.keys - old(visited.keys)
        ensures Reaches(t, hash, x)
      {
        if x != hash {
          var tip := if x in mid then leftTip else rightTip;
          EdgeHop(t, hash, tip);
          ReachesTrans(t, hash, tip, x);
        }
      }
    }
  }

  method GenerateChildren(dag: DAG, pruneList: seq<Hash>, compressed: seq<Hash>, decompressed: KeySet,
                          ghost keeps: Graph -> bool, ghost t: TipMap, ghost u: set<Hash>)
    requires keeps(dag.graph) && Fits(keeps, t, u) && Closed(t, u) && Elements(compressed) <= u
    requires decompressed.keys == {}
    modifies dag, decompressed
    ensures keeps(dag.graph)
    ensures forall x :: x in decompressed.keys <==> x in pruneList && Covered(t, Elements(compressed), x)
  {
    var pruneListMap := KeysOf(pruneList);
    var visited := new KeySet();
    for i := 0 to |compressed|
      invariant keeps(dag.graph) && pruneListMap.keys == Elements(pruneList)
      invariant visited.keys <= u && Elements(compressed[..i]) <= visited.keys
      invariant decompressed.keys == visited.keys * pruneListMap.keys
      invariant Closed(t, visited.keys)
      invariant forall x :: x in visited.keys ==> Covered(t, Elements(compressed), x)
    {
      assert compressed[i] in Elements(compressed);
      AddChildren(dag, compressed[i], pruneListMap, decompressed, visited, keeps, t, u);
    }
    assert compressed[..|compressed|] == compressed;
    forall r, x | r in compressed && Reaches(t, r, x)
      ensures x in visited.keys
    {
      ClosedContains(t, visited.keys, r, x);
    }
  }

  method VerifyCompression(dag: DAG, pruneList: seq<Hash>, compressed: seq<Hash>,
                           ghost keeps: Graph -> bool, ghost t: TipMap, ghost u: set<Hash>)
    returns (ok: bool)
    requires keeps(dag.graph) && Fits(keeps, t, u) && Closed(t, u) && Elements(compressed) <= u
    modifies dag
    ensures keeps(dag.graph)
    ensures ok <==> Covers(t, Elements(compressed), Elements(pruneList))
  {
    var decompressed := new KeySet();
    GenerateChildren(dag, pruneList, compressed, decompressed, keeps, t, u);
    var missed := 0;
    for i := 0 to |pruneList|
      invariant missed >= 0
      invariant missed == 0 <==> forall j :: 0 <= j < i ==> pruneList[j] in decompressed.keys
    {
      if pruneList[i] !in decompressed.keys {
        missed := missed + 1;
      }
    }
    ok := missed == 0;
  }

  // ----- the check succeeds

  /** The members of p from which x is reachable. */
  ghost function Above(t: TipMap, p: set<Hash>, x: Hash): set<Hash> {
    set q | q in p && Reaches(t, q, x)
  }

  lemma {:induction false} CompressedCoversOne(t: TipMap, p: set<Hash>, x: Hash)
    requires Acyclic(t) && x in p
    ensures Covered(t, Compressed(t, p), x)
    decreases Above(t, p, x)
  {
    ReachesSelf(t, x);
    if x !in Compressed(t, p) {
      var q :| q in p && Edge(t, q, x);
      EdgeHop(t, q, x);
      forall y | y in Above(t, p, q)
        ensures y in Above(t, p, x)
      {
        ReachesTrans(t, y, q, x);
      }
      AcyclicStrict(t, q, x);
      assert x in Above(t, p, x) && x !in Above(t, p, q);
      CompressedCoversOne(t, p, q);
      var r :| r in Compressed(t, p) && Reaches(t, r, q);
      ReachesTrans(t, r, q, x);
    }
  }

  /** On an acyclic graph the compressed list always re-expands to the whole prune list. */
  lemma {:induction false} CompressedCovers(t: TipMap, p: set<Hash>)
    requires Acyclic(t)
    ensures Covers(t, Compressed(t, p), p)
  {
    forall x | x in p
      ensures Covered(t, Compressed(t, p), x)
    {
      CompressedCoversOne(t, p, x);
    }
  }

  /** The vertices on a cycle with a. */
  ghost function OnCycle(t: TipMap, a: Hash): set<Hash> {
    set x | x in t && Reaches(t, a, x) && Reaches(t, x, a)
  }

  /** Each of them is approved by another of them, or by itself. */
  lemma {:induction false} CycleApprovesItself(t: TipMap, a: Hash, x: Hash)
    requires ProperlyReaches(t, a, a) && x in OnCycle(t, a)
    ensures Approved(t, OnCycle(t, a), x)
  {
    ReachesTrans(t, a, a, x);
    var n: nat :| n > 0 && Hops(t, a, x, n);
    var b := LastEdge(t, a, x, n);
    EdgeHop(t, b, x);
    ReachesTrans(t, b, x, a);
    assert b in OnCycle(t, a);
  }

  /** The check succeeds for every list of graph keys if and only if the graph has no cycle. */
  lemma {:induction false} SucceedsExactlyIfAcyclic(t: TipMap)
    ensures Acyclic(t) <==> forall p :: p <= t.Keys ==> Covers(t, Compressed(t, p), p)
  {
    if Acyclic(t) {
      forall p | p <= t.Keys
        ensures Covers(t, Compressed(t, p), p)
      {
        CompressedCovers(t, p);
      }
    } else {
      var a, n: nat :| n > 0 && Hops(t, a, a, n);
      var p := OnCycle(t, a);
      ReachesSelf(t, a);
      assert a in p;
      forall x | x in p
        ensures Approved(t, p, x)
      {
        CycleApprovesItself(t, a, x);
      }
      assert Compressed(t, p) == {};
      assert !Covered(t, {}, a);
    }
  }

  // ----- how small the compressed list is

  /** No member of c reaches another one. */
  ghost predicate Antichain(t: TipMap, c: set<Hash>) {
    forall a, b :: a in c && b in c && Reaches(t, a, b) ==> a == b
  }

  /** Every tip of an in-graph member of p is a member of p if it is in the graph. */
  ghost predicate TipClosed(t: TipMap, p: set<Hash>) {
    forall a, b :: a in p && Edge(t, a, b) && b in t ==> b in p
  }

  /** Inside a tip-closed list, only a compressed member itself reaches a compressed member. */
  lemma {:induction false} OnlyItselfReaches(t: TipMap, p: set<Hash>, a: Hash, c: Hash)
    requires TipClosed(t, p) && a in p && c in Compressed(t, p) && Reaches(t, a, c)
    ensures a == c
  {
    var n: nat :| Hops(t, a, c, n);
    if n > 0 {
      var b := LastEdge(t, a, c, n);
      InnerVertexIn(t, p, a, b, n - 1);
    }
  }

  lemma {:induction false} InnerVertexIn(t: TipMap, p: set<Hash>, a: Hash, b: Hash, n: nat)
    requires TipClosed(t, p) && a in p && b in t && Hops(t, a, b, n)
    ensures b in p
    decreases n
  {
    if n > 0 {
      var next := if Hops(t, t[a].left, b, n - 1) then t[a].left else t[a].right;
      assert Edge(t, a, next);
      if n == 1 {
        assert next == b;
      } else {
        assert next in t;
        InnerVertexIn(t, p, next, b, n - 1);
      }
    }
  }

  /** The compressed list of a tip-closed prune list is an antichain ... */
  lemma {:induction false} CompressedAntichain(t: TipMap, p: set<Hash>)
    requires TipClosed(t, p)
    ensures Antichain(t, Compressed(t, p))
  {
    forall a, b | a in Compressed(t, p) && b in Compressed(t, p) && Reaches(t, a, b)
      ensures a == b
    {
      OnlyItselfReaches(t, p, a, b);
    }
  }

  /** ... and the least subset of the prune list that covers it. */
  lemma {:induction false} CompressedLeast(t: TipMap, p: set<Hash>, s: set<Hash>)
    requires TipClosed(t, p) && s <= p && Covers(t, s, p)
    ensures Compressed(t, p) <= s
  {
    forall c | c in Compressed(t, p)
      ensures c in s
    {
      var r :| r in s && Reaches(t, r, c);
      OnlyItselfReaches(t, p, r, c);
    }
  }

  /**
   For a prune list that is not tip-closed the compressed list is an antichain exactly when
   every member some other member reaches is also the direct tip of a member.
   */
  lemma {:induction false} AntichainExactly(t: TipMap, p: set<Hash>)
    requires Acyclic(t)
    ensures Antichain(t, Compressed(t, p)) <==>
      forall a, b :: a in p && b in p && ProperlyReaches(t, a, b) ==> Approved(t, p, b)
  {
    var c := Compressed(t, p);
    if Antichain(t, c) {
      forall a, b | a in p && b in p && ProperlyReaches(t, a, b)
        ensures Approved(t, p, b)
      {
        if b in c {
          CompressedCoversOne(t, p, a);
          var r :| r in c && Reaches(t, r, a);
          ReachesTrans(t, r, a, b);
          AcyclicStrict(t, a, b);
        }
      }
    } else {
      var a, b :| a in c && b in c && Reaches(t, a, b) && a != b;
      var n: nat :| Hops(t, a, b, n);
      assert n > 0;
      assert a in p && b in p && ProperlyReaches(t, a, b);
    }
  }

  ghost predicate InEveryCover(t: TipMap, p: set<Hash>, c: set<Hash>) {
    forall s :: s <= p && Covers(t, s, p) ==> c <= s
  }

  /** And it is the least cover exactly when it is an antichain. */
  lemma {:induction false} LeastExactly(t: TipMap, p: set<Hash>)
    requires Acyclic(t)
    ensures InEveryCover(t, p, Compressed(t, p)) <==> Antichain(t, Compressed(t, p))
  {
    var c := Compressed(t, p);
    if Antichain(t, c) {
      forall s | s <= p && Covers(t, s, p)
        ensures c <= s
      {
        AntichainInCover(t, p, s);
      }
    } else {
      var a, b :| a in c && b in c && Reaches(t, a, b) && a != b;
      CoverWithout(t, p, a, b);
      assert b !in p - {b};
    }
  }

  lemma {:induction false} EachOther(t: TipMap, a: Hash, b: Hash)
    requires Acyclic(t) && Reaches(t, a, b) && Reaches(t, b, a)
    ensures a == b
  {
    var m: nat :| Hops(t, a, b, m);
    var n: nat :| Hops(t, b, a, n);
    HopsCompose(t, a, b, a, m, n);
  }

  lemma {:induction false} AntichainInCover(t: TipMap, p: set<Hash>, s: set<Hash>)
    requires Acyclic(t) && Antichain(t, Compressed(t, p)) && s <= p && Covers(t, s, p)
    ensures Compressed(t, p) <= s
  {
    forall c | c in Compressed(t, p)
      ensures c in s
    {
      var r :| r in s && Reaches(t, r, c);
      CompressedCoversOne(t, p, r);
      var top :| top in Compressed(t, p) && Reaches(t, top, r);
      ReachesTrans(t, top, r, c);
      assert top == c;
      EachOther(t, r, c);
    }
  }

  /** A member another member reaches is not needed in a cover. */
  lemma {:induction false} CoverWithout(t: TipMap, p: set<Hash>, a: Hash, b: Hash)
    requires a in p && b in p && a != b && Reaches(t, a, b)
    ensures Covers(t, p - {b}, p)
  {
    forall x | x in p
      ensures Covered(t, p - {b}, x)
    {
      ReachesSelf(t, x);
      assert (if x == b then a else x) in p - {b};
    }
  }

  /** The gap a skipped vertex leaves: x over y over z, with only x and z in the list, keeps z. */
  lemma {:induction false} SkippedVertexKeepsBoth()
    ensures var x, y, z := Hash(1), Hash(2), Hash(3);
      var t := map[x := Tips(y, y), y := Tips(z, z)];
      Compressed(t, {x, z}) == {x, z} && Reaches(t, x, z)
  {
    var x, y, z := Hash(1), Hash(2), Hash(3);
    var t := map[x := Tips(y, y), y := Tips(z, z)];
    assert Hops(t, z, z, 0);
    assert Hops(t, y, z, 1);
    assert Hops(t, x, z, 2);
  }
}
