/**
 GetStart: the gateway's random walks start at the vertices with no tip left in the graph,
 found by recursion down both tips, so a start comes up once for every path leading to it.
 */
module WalkStarts {
  import opened Go
  import opened Dag

  datatype Side = Left | Right

  /** The tips Go reads for h: those of the zero Vertex when h is not a key. */
  function TipsAt(t: TipMap, h: Hash): Tips {
    if h in t then t[h] else Tips(ZERO, ZERO)
  }

  function TipAt(t: TipMap, h: Hash, side: Side): Hash {
    if side == Left then TipsAt(t, h).left else TipsAt(t, h).right
  }

  predicate IsStart(t: TipMap, h: Hash) {
    TipsAt(t, h).left !in t && TipsAt(t, h).right !in t
  }

  /** Less lies below a tip than below its approver. */
  lemma {:induction false} TipIsSmaller(t: TipMap, h: Hash, side: Side)
    requires Acyclic(t)
    ensures h in t ==> Below(t, TipAt(t, h, side)) < Below(t, h)
  {
    if h in t {
      BelowShrinks(t, h, TipAt(t, h, side));
    }
  }

  function GetStart(g: Graph, tip: Hash): (starts: seq<Hash>)
    requires Acyclic(TipsOf(g))
    decreases if tip in g then 0 else 1, Below(TipsOf(g), tip)
  {
    var tips := TipsAt(TipsOf(g), tip);
    TipIsSmaller(TipsOf(g), tip, Left);
    TipIsSmaller(TipsOf(g), tip, Right);
    (if tips.left in g then GetStart(g, tips.left) else []) +
    (if tips.right in g then GetStart(g, tips.right) else []) +
    (if tips.left !in g && tips.right !in g then [tip] else [])
  }

  // ----- labelled paths

  /** Where the left/right choices of w lead, if every vertex on the way is in the graph. */
  function Follow(t: TipMap, h: Hash, w: seq<Side>): Option<Hash>
    decreases |w|
  {
    if w == [] then Some(h)
    else if TipAt(t, h, w[0]) in t then Follow(t, TipAt(t, h, w[0]), w[1..])
    else None
  }

  /** w is a labelled path from h to the start x. */
  predicate LeadsToStart(t: TipMap, h: Hash, w: seq<Side>, x: Hash) {
    Follow(t, h, w) == Some(x) && IsStart(t, x)
  }

  function Prefixed(side: Side, ps: seq<seq<Side>>): seq<seq<Side>> {
    seq(|ps|, i requires 0 <= i < |ps| => [side] + ps[i])
  }

  /** The labelled paths from h to a start, in the order GetStart meets their ends. */
  ghost function Paths(t: TipMap, h: Hash): seq<seq<Side>>
    requires Acyclic(t) && h in t
    decreases Below(t, h)
  {
    TipIsSmaller(t, h, Left);
    TipIsSmaller(t, h, Right);
    (if t[h].left in t then Prefixed(Left, Paths(t, t[h].left)) else []) +
    (if t[h].right in t then Prefixed(Right, Paths(t, t[h].right)) else []) +
    (if IsStart(t, h) then [[]] else [])
  }

  /** Entry i of the result is the end of path i. */
  ghost predicate Matched(t: TipMap, h: Hash, starts: seq<Hash>, ps: seq<seq<Side>>) {
    |starts| == |ps| && forall i :: 0 <= i < |ps| ==> LeadsToStart(t, h, ps[i], starts[i])
  }

  lemma {:induction false} PrefixedMatch(t: TipMap, h: Hash, side: Side, starts: seq<Hash>, ps: seq<seq<Side>>)
    requires TipAt(t, h, side) in t && Matched(t, TipAt(t, h, side), starts, ps)
    ensures Matched(t, h, starts, Prefixed(side, ps))
  {
    forall i | 0 <= i < |ps|
      ensures LeadsToStart(t, h, Prefixed(side, ps)[i], starts[i])
    {
      assert ([side] + ps[i])[1..] == ps[i];
    }
  }

  lemma {:induction false} PrefixedDistinct(side: Side, ps: seq<seq<Side>>)
    requires NoRepeats(ps)
    ensures NoRepeats(Prefixed(side, ps))
    ensures forall w :: w in Prefixed(side, ps) <==> w != [] && w[0] == side && w[1..] in ps
  {
    var qs := Prefixed(side, ps);
    forall i | 0 <= i < |ps|
      ensures qs[i][1..] == ps[i]
    {
      assert ([side] + ps[i])[1..] == ps[i];
    }
    forall w | w != [] && w[0] == side && w[1..] in ps
      ensures w in qs
    {
      var i :| 0 <= i < |ps| && ps[i] == w[1..];
      assert qs[i] == w;
    }
  }

  lemma {:induction false} StartsMatchPaths(g: Graph, h: Hash)
    requires Acyclic(TipsOf(g)) && h in g
    ensures Matched(TipsOf(g), h, GetStart(g, h), Paths(TipsOf(g), h))
    decreases Below(TipsOf(g), h)
  {
    var t := TipsOf(g);
    TipIsSmaller(t, h, Left);
    TipIsSmaller(t, h, Right);
    var l, r := t[h].left, t[h].right;
    if l in t {
      StartsMatchPaths(g, l);
      PrefixedMatch(t, h, Left, GetStart(g, l), Paths(t, l));
    }
    if r in t {
      StartsMatchPaths(g, r);
      PrefixedMatch(t, h, Right, GetStart(g, r), Paths(t, r));
    }
  }

  lemma {:induction false} ConcatDistinct<T>(a: seq<T>, b: seq<T>)
    requires NoRepeats(a) && NoRepeats(b) && forall x :: x in a ==> x !in b
    ensures NoRepeats(a + b)
  {
    forall i, j | 0 <= i < j < |a + b|
      ensures (a + b)[i] != (a + b)[j]
    {
      if i < |a| <= j {
        assert a[i] in a && b[j - |a|] in b;
      }
    }
  }

  /** Paths lists every labelled path to a start, each once, and is never empty. */
  lemma {:induction false} PathsComplete(t: TipMap, h: Hash, w: seq<Side>)
    requires Acyclic(t) && h in t
    ensures NoRepeats(Paths(t, h)) && Paths(t, h) != []
    ensures w in Paths(t, h) <==> Follow(t, h, w).Some? && IsStart(t, Follow(t, h, w).value)
    decreases Below(t, h)
  {
    TipIsSmaller(t, h, Left);
    TipIsSmaller(t, h, Right);
    var l, r := t[h].left, t[h].right;
    var rest := if w == [] then [] else w[1..];
    if l in t {
      PathsComplete(t, l, rest);
      PrefixedDistinct(Left, Paths(t, l));
    }
    if r in t {
      PathsComplete(t, r, rest);
      PrefixedDistinct(Right, Paths(t, r));
    }
    var ls := if l in t then Prefixed(Left, Paths(t, l)) else [];
    var rs := if r in t then Prefixed(Right, Paths(t, r)) else [];
    ConcatDistinct(ls, rs);
    ConcatDistinct(ls + rs, if IsStart(t, h) then [[]] else []);
  }

  // ----- how often a start occurs

  /** The listed paths that end at x. */
  ghost function EndingAt(t: TipMap, h: Hash, ps: seq<seq<Side>>, x: Hash): set<seq<Side>> {
    set w | w in ps && Follow(t, h, w) == Some(x)
  }

  /** The labelled paths from h to x. */
  ghost function PathsTo(t: TipMap, h: Hash, x: Hash): set<seq<Side>>
    requires Acyclic(t) && h in t
  {
    EndingAt(t, h, Paths(t, h), x)
  }

  /** PathsTo(x) is exactly the set of labelled paths to the start x. */
  lemma {:induction false} PathsToMeaning(t: TipMap, h: Hash, x: Hash, w: seq<Side>)
    requires Acyclic(t) && h in t
    ensures w in PathsTo(t, h, x) <==> LeadsToStart(t, h, w, x)
  {
    PathsComplete(t, h, w);
  }

  lemma {:induction false} CountMatched(t: TipMap, h: Hash, starts: seq<Hash>, ps: seq<seq<Side>>, x: Hash)
    requires Matched(t, h, starts, ps) && NoRepeats(ps)
    ensures multiset(starts)[x] == |EndingAt(t, h, ps, x)|
    decreases |ps|
  {
    if ps == [] {
      assert starts == [];
      assert EndingAt(t, h, ps, x) == {};
    } else {
      var n := |ps| - 1;
      CountMatched(t, h, starts[..n], ps[..n], x);
      OneMoreStart(starts, x);
      OneMorePath(t, h, ps, x);
      assert LeadsToStart(t, h, ps[n], starts[n]);
    }
  }

  lemma {:induction false} OneMoreStart(starts: seq<Hash>, x: Hash)
    requires starts != []
    ensures var n := |starts| - 1;
      multiset(starts)[x] == multiset(starts[..n])[x] + if starts[n] == x then 1 else 0
  {
    assert starts == starts[..|starts| - 1] + [starts[|starts| - 1]];
  }

  lemma {:induction false} OneMorePath(t: TipMap, h: Hash, ps: seq<seq<Side>>, x: Hash)
    requires ps != [] && NoRepeats(ps)
    ensures var n := |ps| - 1;
      |EndingAt(t, h, ps, x)| ==
        |EndingAt(t, h, ps[..n], x)| + if Follow(t, h, ps[n]) == Some(x) then 1 else 0
  {
    var n := |ps| - 1;
    var before := EndingAt(t, h, ps[..n], x);
    assert ps[n] !in ps[..n];
    assert ps == ps[..n] + [ps[n]];
    assert EndingAt(t, h, ps, x) == before + (if Follow(t, h, ps[n]) == Some(x) then {ps[n]} else {});
  }

  /** On an acyclic graph GetStart lists each start once per labelled path to it, and at least one start. */
  lemma {:induction false} GetStartCountsPaths(g: Graph, h: Hash, x: Hash)
    requires Acyclic(TipsOf(g)) && h in g
    ensures multiset(GetStart(g, h))[x] == |PathsTo(TipsOf(g), h, x)|
    ensures GetStart(g, h) != []
  {
    var t := TipsOf(g);
    StartsMatchPaths(g, h);
    PathsComplete(t, h, []);
    CountMatched(t, h, GetStart(g, h), Paths(t, h), x);
  }

  // ----- which starts occur

  lemma {:induction false} FollowReaches(t: TipMap, h: Hash, w: seq<Side>)
    requires h in t && Follow(t, h, w).Some?
    ensures Follow(t, h, w).value in t && Hops(t, h, Follow(t, h, w).value, |w|)
    decreases |w|
  {
    if w != [] {
      FollowReaches(t, TipAt(t, h, w[0]), w[1..]);
    }
  }

  lemma {:induction false} ReachedIsFollowed(t: TipMap, h: Hash, x: Hash, n: nat) returns (w: seq<Side>)
    requires h in t && x in t && Hops(t, h, x, n)
    ensures Follow(t, h, w) == Some(x)
    decreases n
  {
    if n == 0 {
      w := [];
    } else {
      var side := if Hops(t, t[h].left, x, n - 1) then Left else Right;
      var next := TipAt(t, h, side);
      assert n == 1 ==> next == x;
      var rest := ReachedIsFollowed(t, next, x, n - 1);
      w := [side] + rest;
      assert w[1..] == rest;
    }
  }

  /** The result holds exactly the reachable vertices with no tip in the graph. */
  lemma {:induction false} GetStartFindsStarts(g: Graph, h: Hash, x: Hash)
    requires Acyclic(TipsOf(g)) && h in g
    ensures x in GetStart(g, h) <==> x in g && Reaches(TipsOf(g), h, x) && IsStart(TipsOf(g), x)
  {
    var t := TipsOf(g);
    StartsMatchPaths(g, h);
    if x in GetStart(g, h) {
      var i :| 0 <= i < |GetStart(g, h)| && GetStart(g, h)[i] == x;
      FollowReaches(t, h, Paths(t, h)[i]);
    }
    if x in g && Reaches(t, h, x) && IsStart(t, x) {
      var n: nat :| Hops(t, h, x, n);
      var w := ReachedIsFollowed(t, h, x, n);
      PathsComplete(t, h, w);
      var i :| 0 <= i < |Paths(t, h)| && Paths(t, h)[i] == w;
      assert LeadsToStart(t, h, w, GetStart(g, h)[i]);
    }
  }
}
