/**
 The scan of the storage node's periodic pruning round for the vertices past the age threshold,
 and when the list it gives has no gaps.
 */
module PruneList {
  import opened Go
  import opened Dag
  import opened Compression

  /** thresholdTime: five minutes in nanoseconds. */
  const THRESHOLD_TIME: int := 5 * 60 * 1_000_000_000

  // ----- which vertices are old

  predicate TooOld(v: Vertex, now: int) {
    Sub64(now, v.tx.timestamp) > THRESHOLD_TIME
  }

  /** clock(h) is the time read while h was being looked at. */
  ghost function OldOnes(g: Graph, clock: Hash -> int): set<Hash> {
    set h | h in g && TooOld(g[h], clock(h))
  }

  method GetTxToBePruned(dag: DAG, clock: Hash -> int) returns (hashArray: seq<Hash>)
    ensures NoRepeats(hashArray) && Elements(hashArray) == OldOnes(dag.graph, clock)
    ensures forall h :: h in hashArray <==>
      h in dag.graph && Sub64(clock(h), dag.graph[h].tx.timestamp) > 300_000_000_000
  {
    hashArray := [];
    var rest := dag.graph.Keys;
    while rest != {}
      invariant rest <= dag.graph.Keys && NoRepeats(hashArray) && rest !! Elements(hashArray)
      invariant Elements(hashArray) == set h | h in dag.graph.Keys - rest && TooOld(dag.graph[h], clock(h))
      decreases rest
    {
      var hash :| hash in rest;
      rest := rest - {hash};
      if TooOld(dag.graph[hash], clock(hash)) {
        hashArray := hashArray + [hash];
      }
    }
  }

  /** No vertex is older than what it approves. */
  ghost predicate TimeOrdered(g: Graph) {
    forall a, b :: Edge(TipsOf(g), a, b) && b in g ==> g[b].tx.timestamp <= g[a].tx.timestamp
  }

  /** Ages at `now` are representable in 64 bits. */
  ghost predicate AgesFit(g: Graph, now: int) {
    forall h :: h in g ==> -MAX_INT64 - 1 <= now - g[h].tx.timestamp <= MAX_INT64
  }

  // ----- exactly when the scan is closed

  ghost predicate Int64Stamps(g: Graph) {
    forall h :: h in g ==> -MAX_INT64 - 1 <= g[h].tx.timestamp <= MAX_INT64
  }

  /** The readings of one scan: UnixNano is non-negative, and no two readings are more than d apart. */
  ghost predicate Drifts(clock: Hash -> int, d: nat) {
    forall x, y :: 0 <= clock(x) <= MAX_INT64 && clock(x) <= clock(y) + d
  }

  /** A vertex stamped ts is old from the first of these readings to the last. */
  function FirstOld(ts: int): int {
    if ts + THRESHOLD_TIME + 1 > 0 then ts + THRESHOLD_TIME + 1 else 0
  }

  /** Past this reading the age of a vertex with a negative stamp wraps around. */
  function LastOld(ts: int): int {
    if ts < 0 then MAX_INT64 + ts else MAX_INT64
  }

  lemma {:induction false} OldExactly(ts: int, now: int)
    requires -MAX_INT64 - 1 <= ts <= MAX_INT64 && 0 <= now <= MAX_INT64
    ensures Sub64(now, ts) > THRESHOLD_TIME <==> FirstOld(ts) <= now <= LastOld(ts)
  {
    if now - ts > MAX_INT64 {
      assert Sub64(now, ts) == now - ts - TWO_64;
    }
  }

  /** A vertex stamped ta is never old, or any reading within d of one that finds it old finds ts tb old. */
  predicate StampsAgree(ta: int, tb: int, d: nat) {
    FirstOld(ta) > LastOld(ta) ||
    (FirstOld(tb) <= (if FirstOld(ta) >= d then FirstOld(ta) - d else 0) &&
     (if LastOld(ta) + d <= MAX_INT64 then LastOld(ta) + d else MAX_INT64) <= LastOld(tb))
  }

  /** Every vertex agrees with the tips it approves. */
  ghost predicate EdgesAgree(g: Graph, d: nat) {
    forall a, b :: Edge(TipsOf(g), a, b) && b in g && a != b ==>
      StampsAgree(g[a].tx.timestamp, g[b].tx.timestamp, d)
  }

  ghost predicate ScanCloses(g: Graph, clock: Hash -> int) {
    TipClosed(TipsOf(g), OldOnes(g, clock))
  }

  lemma {:induction false} AgreeingCloses(g: Graph, clock: Hash -> int, d: nat)
    requires Int64Stamps(g) && EdgesAgree(g, d) && Drifts(clock, d)
    ensures ScanCloses(g, clock)
  {
    var t, p := TipsOf(g), OldOnes(g, clock);
    forall a, b | a in p && Edge(t, a, b) && b in t
      ensures b in p
    {
      if a != b {
        OldExactly(g[a].tx.timestamp, clock(a));
        OldExactly(g[b].tx.timestamp, clock(b));
        assert clock(a) <= clock(b) + d && clock(b) <= clock(a) + d;
      }
    }
  }

  /** Stamps that do not agree have readings, at most d apart, at which only the first is old. */
  lemma {:induction false} DisagreeingReadings(ta: int, tb: int, d: nat) returns (ca: int, cb: int)
    requires !StampsAgree(ta, tb, d)
    requires -MAX_INT64 - 1 <= ta <= MAX_INT64 && -MAX_INT64 - 1 <= tb <= MAX_INT64
    ensures 0 <= ca <= MAX_INT64 && 0 <= cb <= MAX_INT64 && ca <= cb + d && cb <= ca + d
    ensures Sub64(ca, ta) > THRESHOLD_TIME && Sub64(cb, tb) <= THRESHOLD_TIME
  {
    if FirstOld(tb) > (if FirstOld(ta) >= d then FirstOld(ta) - d else 0) {
      ca, cb := FirstOld(ta), if FirstOld(ta) >= d then FirstOld(ta) - d else 0;
    } else {
      ca, cb := LastOld(ta), if LastOld(ta) + d <= MAX_INT64 then LastOld(ta) + d else MAX_INT64;
    }
    OldExactly(ta, ca);
    OldExactly(tb, cb);
  }

  lemma {:induction false} DisagreeingOpens(g: Graph, d: nat, a: Hash, b: Hash) returns (clock: Hash -> int)
    requires Int64Stamps(g) && Edge(TipsOf(g), a, b) && b in g && a != b
    requires !StampsAgree(g[a].tx.timestamp, g[b].tx.timestamp, d)
    ensures Drifts(clock, d) && !ScanCloses(g, clock)
  {
    var ca, cb := DisagreeingReadings(g[a].tx.timestamp, g[b].tx.timestamp, d);
    clock := (h: Hash) => if h == a then ca else cb;
    var p := OldOnes(g, clock);
    assert a in p && b !in p && b in TipsOf(g);
  }

  /**
   For every graph and drift: the scan is tip-closed under all clocks of that drift exactly when
   the stamps agree along every edge.
   */
  lemma {:induction false} ClosedExactly(g: Graph, d: nat)
    requires Int64Stamps(g)
    ensures (forall clock :: Drifts(clock, d) ==> ScanCloses(g, clock)) <==> EdgesAgree(g, d)
  {
    if EdgesAgree(g, d) {
      forall clock | Drifts(clock, d)
        ensures ScanCloses(g, clock)
      {
        AgreeingCloses(g, clock, d);
      }
    } else {
      var a, b :| Edge(TipsOf(g), a, b) && b in g && a != b &&
                  !StampsAgree(g[a].tx.timestamp, g[b].tx.timestamp, d);
      var clock := DisagreeingOpens(g, d, a, b);
    }
  }

  /** Every vertex is stamped at least d after the tips it approves. */
  ghost predicate StampedApart(g: Graph, d: nat) {
    forall a, b :: Edge(TipsOf(g), a, b) && b in g && a != b ==> g[b].tx.timestamp + d <= g[a].tx.timestamp
  }

  /** For stamps a clock can show before the year 2116, that means stamps at least d apart. */
  lemma {:induction false} ClosedExactlyIfApart(g: Graph, d: nat)
    requires forall h :: h in g ==> 0 <= g[h].tx.timestamp < 0x4000_0000_0000_0000
    ensures (forall clock :: Drifts(clock, d) ==> ScanCloses(g, clock)) <==> StampedApart(g, d)
    ensures StampedApart(g, 0) <==> TimeOrdered(g)
  {
    ClosedExactly(g, d);
    forall a, b | Edge(TipsOf(g), a, b) && b in g && a != b
      ensures StampsAgree(g[a].tx.timestamp, g[b].tx.timestamp, d) <==>
              g[b].tx.timestamp + d <= g[a].tx.timestamp
    {}
  }

  /** The least prune list: no member reaches another, and no smaller list covers the old vertices. */
  lemma {:induction false} LeastWithinDrift(g: Graph, clock: Hash -> int, d: nat, s: set<Hash>)
    requires Int64Stamps(g) && EdgesAgree(g, d) && Drifts(clock, d)
    requires s <= OldOnes(g, clock) && Covers(TipsOf(g), s, OldOnes(g, clock))
    ensures var c := Compressed(TipsOf(g), OldOnes(g, clock));
      Antichain(TipsOf(g), c) && c <= s
  {
    AgreeingCloses(g, clock, d);
    CompressedAntichain(TipsOf(g), OldOnes(g, clock));
    CompressedLeast(TipsOf(g), OldOnes(g, clock), s);
  }

  // ----- the three ways it fails

  /** A vertex stamped 0 over one stamped `below`. */
  function TwoVertices(below: int): Graph {
    map[Hash(1) := Vertex(Transaction(Hash(1), Hash(2), Hash(2), 0), [], 1, false),
        Hash(2) := Vertex(Transaction(Hash(2), ZERO, ZERO, below), [], 1, false)]
  }

  lemma {:induction false} TwoVerticesTips(below: int, p: set<Hash>)
    ensures below <= 0 ==> TimeOrdered(TwoVertices(below))
    ensures Hash(1) in p && Hash(2) !in p ==> !TipClosed(TipsOf(TwoVertices(below)), p)
  {
    var t := TipsOf(TwoVertices(below));
    assert t[Hash(1)] == Tips(Hash(2), Hash(2));
    assert Edge(t, Hash(1), Hash(2)) && Hash(2) in t;
  }

  /** A clock that moves on during the scan can list a vertex and miss the older one it approves. */
  lemma {:induction false} MovingClockNotTipClosed()
    ensures var g := TwoVertices(0);
      var clock := (h: Hash) => if h == Hash(1) then THRESHOLD_TIME + 1 else THRESHOLD_TIME;
      TimeOrdered(g) && (forall h :: AgesFit(g, clock(h))) && !TipClosed(TipsOf(g), OldOnes(g, clock))
  {
    var clock := (h: Hash) => if h == Hash(1) then THRESHOLD_TIME + 1 else THRESHOLD_TIME;
    TwoVerticesTips(0, OldOnes(TwoVertices(0), clock));
  }

  /** So can a timestamp so far in the past that its age wraps around to a negative number. */
  lemma {:induction false} WrappedAgeNotTipClosed()
    ensures var g, now := TwoVertices(-MAX_INT64), THRESHOLD_TIME + 1;
      TimeOrdered(g) && !TipClosed(TipsOf(g), OldOnes(g, _ => now))
  {
    var now := THRESHOLD_TIME + 1;
    assert Sub64(now, -MAX_INT64) < 0;
    TwoVerticesTips(-MAX_INT64, OldOnes(TwoVertices(-MAX_INT64), _ => now));
  }

  /** And so can a vertex stamped before the tip it approves, which no check on arrival refuses. */
  lemma {:induction false} EarlyStampNotTipClosed()
    ensures var g, now := TwoVertices(1), THRESHOLD_TIME + 1;
      AgesFit(g, now) && !TipClosed(TipsOf(g), OldOnes(g, _ => now))
  {
    TwoVerticesTips(1, OldOnes(TwoVertices(1), _ => THRESHOLD_TIME + 1));
  }
}
