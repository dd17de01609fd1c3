/**
 The IoT app's check of a time range: sort the chunks, drop a dangling half pair at either
 end, and compare the hash of each pair with the intermediate hash the storage node holds.
 */
module IhCheck {
  import opened Go
  import opened Dag
  import opened Merkle

  /** A Go panic (an index out of range), or the pair verifyIH returns. */
  datatype Outcome = Panicked | Verdict(ok: bool, failed: seq<int>)

  // ----- sorting

  /** a may stand before b under the comparison given to sort.Slice. */
  predicate InOrder<R>(a: CssData<R>, b: CssData<R>) {
    if a.ihSequence == b.ihSequence then a.chunkPosition <= b.chunkPosition else a.ihSequence < b.ihSequence
  }

  predicate Sorted<R>(s: seq<CssData<R>>) {
    forall i, j :: 0 <= i < j < |s| ==> InOrder(s[i], s[j])
  }

  /** Stands for sort.Slice, which promises this and nothing about equal keys. */
  method SortSlice<R>(a: array<CssData<R>>)
    modifies a
    ensures Sorted(a[..]) && multiset(a[..]) == multiset(old(a[..]))
  {
    for n := 0 to a.Length
      invariant forall i, j :: 0 <= i < n && i < j < a.Length ==> InOrder(a[i], a[j])
      invariant multiset(a[..]) == multiset(old(a[..]))
    {
      var least := n;
      for k := n to a.Length
        invariant n <= least < a.Length
        invariant forall j :: n <= j < k ==> InOrder(a[least], a[j])
      {
        if !InOrder(a[least], a[k]) {
          least := k;
        }
      }
      a[n], a[least] := a[least], a[n];
    }
  }

  // ----- trimming and comparing

  /** The slice left after both ends are looked at; None where Go would index an empty slice. */
  function Trim<R>(s: seq<CssData<R>>): Option<seq<CssData<R>>> {
    if s == [] then None
    else
      var s1 := if s[0].chunkPosition != 0 then s[1..] else s;
      if s1 == [] then None
      else
        var s2 := if s1[|s1| - 1].chunkPosition != 1 then s1[..|s1| - 1] else s1;
        if s2 == [] then None else Some(s2)
  }

  function PairIh<R>(H: PairHash, chunkHash: seq<R> -> Hash, c0: CssData<R>, c1: CssData<R>): Hash {
    H(chunkHash(c0.records), chunkHash(c1.records))
  }

  /** The loop from index i on; a mismatch steps on by one, anything else by two. */
  function Scan<R>(H: PairHash, chunkHash: seq<R> -> Hash, stored: map<int, Hash>,
                   s: seq<CssData<R>>, i: nat): Option<seq<int>>
    decreases |s| - i
  {
    if i >= |s| then Some([])
    else if i + 1 >= |s| then None
    else if s[i].ihSequence != s[i + 1].ihSequence then Scan(H, chunkHash, stored, s, i + 1)
    else
      var q := s[i].ihSequence;
      var rest := Scan(H, chunkHash, stored, s, i + 2);
      if rest.None? then None
      else if q in stored && stored[q] != PairIh(H, chunkHash, s[i], s[i + 1]) then Some([q] + rest.value)
      else rest
  }

  /** The whole check on sorted data. */
  function Check<R>(H: PairHash, chunkHash: seq<R> -> Hash, stored: Option<map<int, Hash>>,
                    sorted: seq<CssData<R>>): Outcome
  {
    match Trim(sorted)
    case None => Panicked
    case Some(s) =>
      if stored.None? then Verdict(false, [])
      else
        match Scan(H, chunkHash, stored.value, s, 0)
        case None => Panicked
        case Some(failed) => Verdict(failed == [], failed)
  }

  /** The two conditional re-slicings before the comparison. */
  method TrimEnds<R>(data: seq<CssData<R>>) returns (trimmed: Option<seq<CssData<R>>>)
    ensures trimmed == Trim(data)
  {
    var s := data;
    if |s| == 0 {
      return None;
    }
    if s[0].chunkPosition != 0 {
      s := s[1..];
    }
    if |s| == 0 {
      return None;
    }
    if s[|s| - 1].chunkPosition != 1 {
      s := s[..|s| - 1];
    }
    if |s| == 0 {
      return None;
    }
    trimmed := Some(s);
  }

  /** The comparing loop; None where it would index past the end. */
  method ComparePairs<R>(H: PairHash, chunkHash: seq<R> -> Hash, stored: map<int, Hash>, s: seq<CssData<R>>)
    returns (r: Option<seq<int>>)
    ensures r == Scan(H, chunkHash, stored, s, 0)
  {
    var failed: seq<int> := [];
    var i := 0;
    ghost var all := Scan(H, chunkHash, stored, s, 0);
    assert all.Some? ==> [] + all.value == all.value;
    while i < |s|
      invariant 0 <= i
      invariant var rest := Scan(H, chunkHash, stored, s, i);
        if rest.None? then all.None? else all == Some(failed + rest.value)
      decreases |s| - i
    {
      if i + 1 >= |s| {
        return None;
      }
      if s[i].ihSequence != s[i + 1].ihSequence {
        i := i - 1;
        i := i + 2;
        continue;
      }
      var ihSequence := s[i].ihSequence;
      var ihHash := H(chunkHash(s[i].records), chunkHash(s[i + 1].records));
      ghost var rest := Scan(H, chunkHash, stored, s, i + 2);
      if ihSequence in stored && ihHash != stored[ihSequence] {
        assert rest.Some? ==> failed + ([ihSequence] + rest.value) == failed + [ihSequence] + rest.value;
        failed := failed + [ihSequence];
      }
      i := i + 2;
    }
    assert failed + [] == failed;
    r := Some(failed);
  }

  /** stored holds the non-empty answers of the storage node; None if the request fails. */
  method VerifyIH<R>(H: PairHash, chunkHash: seq<R> -> Hash, data: array<CssData<R>>,
                     stored: Option<map<int, Hash>>)
    returns (outcome: Outcome)
    modifies data
    ensures Sorted(data[..]) && multiset(data[..]) == multiset(old(data[..]))
    ensures outcome == Check(H, chunkHash, stored, data[..])
  {
    SortSlice(data);
    var trimmed := TrimEnds(data[..]);
    match trimmed
    case None => outcome := Panicked;
    case Some(s) =>
      if stored.None? {
        outcome := Verdict(false, []);
      } else {
        var compared := ComparePairs(H, chunkHash, stored.value, s);
        match compared
        case None => outcome := Panicked;
        case Some(failed) => outcome := Verdict(|failed| == 0, failed);
      }
  }

  // ----- what the loop does to any list

  /** Where the stretch of entries with the sequence of entry i begins. */
  function StretchStart<R>(s: seq<CssData<R>>, i: nat): (k: nat)
    requires i < |s|
    ensures k <= i && s[k].ihSequence == s[i].ihSequence
    decreases i
  {
    if i == 0 || s[i - 1].ihSequence != s[i].ihSequence then i else StretchStart(s, i - 1)
  }

  /** An even number of entries into its stretch: the loop compares entry i with the next one, if it can. */
  predicate Even<R>(s: seq<CssData<R>>, i: nat) {
    i < |s| ==> (i - StretchStart(s, i)) % 2 == 0
  }

  /** The last stretch has an odd number of entries. */
  predicate LastOdd<R>(s: seq<CssData<R>>) {
    s != [] && (|s| - StretchStart(s, |s| - 1)) % 2 == 1
  }

  /** Entries k and k + 1 are compared, as a pair of sequence q, with a stored hash they do not match. */
  predicate Mismatch<R>(H: PairHash, chunkHash: seq<R> -> Hash, stored: map<int, Hash>,
                        s: seq<CssData<R>>, k: nat, q: int)
  {
    && k + 1 < |s| && Even(s, k) && s[k].ihSequence == s[k + 1].ihSequence == q
    && q in stored && stored[q] != PairIh(H, chunkHash, s[k], s[k + 1])
  }

  lemma {:induction false} StepEven<R>(s: seq<CssData<R>>, i: nat)
    requires i + 1 < |s| && Even(s, i)
    ensures s[i].ihSequence != s[i + 1].ihSequence ==> Even(s, i + 1)
    ensures s[i].ihSequence == s[i + 1].ihSequence ==> Even(s, i + 2) && !Even(s, i + 1)
  {
    if s[i].ihSequence == s[i + 1].ihSequence {
      assert StretchStart(s, i + 1) == StretchStart(s, i);
      if i + 2 < |s| && s[i + 2].ihSequence == s[i + 1].ihSequence {
        assert StretchStart(s, i + 2) == StretchStart(s, i + 1);
      }
    }
  }

  /** The loop runs off the end exactly when the last stretch has an odd number of entries. */
  lemma {:induction false} LoopPanics<R>(H: PairHash, chunkHash: seq<R> -> Hash, stored: map<int, Hash>,
                                         s: seq<CssData<R>>, i: nat)
    requires i < |s| && Even(s, i)
    ensures Scan(H, chunkHash, stored, s, i).None? <==> LastOdd(s)
    decreases |s| - i
  {
    if i + 1 < |s| {
      StepEven(s, i);
      if s[i].ihSequence != s[i + 1].ihSequence {
        LoopPanics(H, chunkHash, stored, s, i + 1);
      } else if i + 2 < |s| {
        LoopPanics(H, chunkHash, stored, s, i + 2);
      }
    }
  }

  /** When it does not, it reports exactly the sequences of the mismatches from entry i on. */
  lemma {:induction false} LoopReports<R>(H: PairHash, chunkHash: seq<R> -> Hash, stored: map<int, Hash>,
                                          s: seq<CssData<R>>, i: nat, q: int)
    requires i <= |s| && Even(s, i) && Scan(H, chunkHash, stored, s, i).Some?
    ensures q in Scan(H, chunkHash, stored, s, i).value <==>
      exists k: nat :: i <= k && Mismatch(H, chunkHash, stored, s, k, q)
    decreases |s| - i
  {
    if i + 1 < |s| {
      StepEven(s, i);
      if s[i].ihSequence != s[i + 1].ihSequence {
        LoopReports(H, chunkHash, stored, s, i + 1, q);
        assert !Mismatch(H, chunkHash, stored, s, i, q);
      } else {
        LoopReports(H, chunkHash, stored, s, i + 2, q);
        var p := s[i].ihSequence;
        var all, rest := Scan(H, chunkHash, stored, s, i).value, Scan(H, chunkHash, stored, s, i + 2).value;
        assert all == (if Mismatch(H, chunkHash, stored, s, i, p) then [p] else []) + rest;
        assert Mismatch(H, chunkHash, stored, s, i, q) ==> q == p;
        assert !Mismatch(H, chunkHash, stored, s, i + 1, q);
      }
    }
  }

  /**
   The check on any list, repeated chunks and all: it panics exactly when trimming leaves nothing or a
   last stretch of odd length; otherwise it reports exactly the sequences of the mismatched pairs.
   */
  lemma {:induction false} CheckAlways<R>(H: PairHash, chunkHash: seq<R> -> Hash, stored: map<int, Hash>,
                                          s: seq<CssData<R>>, q: int)
    ensures var outcome := Check(H, chunkHash, Some(stored), s);
      && (outcome.Panicked? <==> Trim(s).None? || LastOdd(Trim(s).value))
      && (outcome.Verdict? ==> (outcome.ok <==> outcome.failed == []))
      && (outcome.Verdict? ==> (q in outcome.failed <==>
            exists k: nat :: 0 <= k && Mismatch(H, chunkHash, stored, Trim(s).value, k, q)))
  {
    if Trim(s).Some? {
      var t := Trim(s).value;
      LoopPanics(H, chunkHash, stored, t, 0);
      if !LastOdd(t) {
        LoopReports(H, chunkHash, stored, t, 0, q);
      }
    }
  }

  /** The number of chunks of sequence q. */
  function Count<R>(s: seq<CssData<R>>, q: int): nat {
    if s == [] then 0 else Count(s[..|s| - 1], q) + if s[|s| - 1].ihSequence == q then 1 else 0
  }

  lemma {:induction false} CountNone<R>(s: seq<CssData<R>>, q: int)
    requires forall k :: 0 <= k < |s| ==> s[k].ihSequence != q
    ensures Count(s, q) == 0
    decreases |s|
  {
    if s != [] {
      CountNone(s[..|s| - 1], q);
    }
  }

  /** In a sorted list a stretch holds every chunk of its sequence. */
  lemma {:induction false} CountStretch<R>(s: seq<CssData<R>>, i: nat)
    requires Sorted(s) && i < |s|
    ensures Count(s[..i + 1], s[i].ihSequence) == i + 1 - StretchStart(s, i)
    decreases i
  {
    assert s[..i + 1][..i] == s[..i];
    if i > 0 && s[i - 1].ihSequence == s[i].ihSequence {
      CountStretch(s, i - 1);
    } else {
      forall k | 0 <= k < i
        ensures s[..i][k].ihSequence != s[i].ihSequence
      {
        assert InOrder(s[k], s[i - 1]) && InOrder(s[i - 1], s[i]);
      }
      CountNone(s[..i], s[i].ihSequence);
    }
  }

  /** Trimming keeps a list sorted. */
  lemma {:induction false} TrimSorted<R>(s: seq<CssData<R>>)
    requires Sorted(s) && Trim(s).Some?
    ensures Sorted(Trim(s).value)
  {
    var s1 := if s[0].chunkPosition != 0 then s[1..] else s;
    assert Sorted(s1);
  }

  /** So a sorted list panics exactly when trimming leaves nothing or an odd number of chunks of the last sequence. */
  lemma {:induction false} SortedPanics<R>(H: PairHash, chunkHash: seq<R> -> Hash, stored: map<int, Hash>,
                                           s: seq<CssData<R>>)
    requires Sorted(s)
    ensures Check(H, chunkHash, Some(stored), s) == Panicked <==>
      Trim(s).None? || var t := Trim(s).value; Count(t, t[|t| - 1].ihSequence) % 2 == 1
  {
    CheckAlways(H, chunkHash, stored, s, 0);
    if Trim(s).Some? {
      var t := Trim(s).value;
      TrimSorted(s);
      CountStretch(t, |t| - 1);
      assert t[..|t|] == t;
    }
  }

  /** A first half stored twice, then the second half: the two copies are taken for a pair, then a panic. */
  lemma {:induction false} RepeatedChunkPanics<R>(H: PairHash, chunkHash: seq<R> -> Hash, stored: map<int, Hash>,
                                                  s: seq<CssData<R>>)
    requires |s| == 3 && s[0] == s[1] && s[0].chunkPosition == 0 && s[2].chunkPosition == 1
    requires s[2].ihSequence == s[0].ihSequence
    ensures Check(H, chunkHash, Some(stored), s) == Panicked
    ensures var q := s[0].ihSequence;
      q in stored && stored[q] != PairIh(H, chunkHash, s[0], s[1]) ==> Mismatch(H, chunkHash, stored, s, 0, q)
  {
    assert Trim(s) == Some(s);
    assert StretchStart(s, 1) == 0 && StretchStart(s, 2) == 0;
    CheckAlways(H, chunkHash, stored, s, 0);
  }

  /** A passed check matched every pair it compared, so those hold the records the stored hash was made from. */
  lemma {:induction false} PassedPairBinds<R>(H: PairHash, chunkHash: seq<R> -> Hash, stored: map<int, Hash>,
                                              s: seq<CssData<R>>, k: nat, r0: seq<R>, r1: seq<R>)
    requires Check(H, chunkHash, Some(stored), s) == Verdict(true, [])
    requires Trim(s).Some? && k + 1 < |Trim(s).value| && Even(Trim(s).value, k)
    requires var c0, c1 := Trim(s).value[k], Trim(s).value[k + 1];
      && c0.ihSequence == c1.ihSequence && c0.ihSequence in stored
      && stored[c0.ihSequence] == H(chunkHash(r0), chunkHash(r1))
    ensures Bound(H, chunkHash, Trim(s).value[k], Trim(s).value[k + 1], r0, r1)
  {
    var q := Trim(s).value[k].ihSequence;
    CheckAlways(H, chunkHash, stored, s, q);
    assert !Mismatch(H, chunkHash, stored, Trim(s).value, k, q);
  }

  /** c0 and c1 hold the records r0 and r1, or two chunks, or two pairs, hash alike. */
  predicate Bound<R(==)>(H: PairHash, chunkHash: seq<R> -> Hash, c0: CssData<R>, c1: CssData<R>,
                         r0: seq<R>, r1: seq<R>)
  {
    || (c0.records == r0 && c1.records == r1)
    || (c0.records != r0 && chunkHash(c0.records) == chunkHash(r0))
    || (c1.records != r1 && chunkHash(c1.records) == chunkHash(r1))
    || ((chunkHash(c0.records), chunkHash(c1.records)) != (chunkHash(r0), chunkHash(r1)) &&
        H(chunkHash(c0.records), chunkHash(c1.records)) == H(chunkHash(r0), chunkHash(r1)))
  }

  /** With nothing stored nothing is reported: any list passes or panics. */
  lemma {:induction false} MissingHashAlwaysPasses<R>(H: PairHash, chunkHash: seq<R> -> Hash, s: seq<CssData<R>>)
    ensures Check(H, chunkHash, Some(map[]), s) ==
      if Trim(s).None? || LastOdd(Trim(s).value) then Panicked else Verdict(true, [])
  {
    var outcome := Check(H, chunkHash, Some(map[]), s);
    CheckAlways(H, chunkHash, map[], s, 0);
    if outcome.Verdict? && outcome.failed != [] {
      CheckAlways(H, chunkHash, map[], s, outcome.failed[0]);
    }
  }

  // ----- distinct chunks

  function Code<R>(c: CssData<R>): int {
    2 * c.ihSequence + c.chunkPosition
  }

  /** No two chunks share a sequence number and a position; any number of chunks may be missing. */
  ghost predicate Distinct<R>(m: multiset<CssData<R>>) {
    && (forall c :: c in m ==> 0 <= c.chunkPosition <= 1 && m[c] == 1)
    && forall c, d :: c in m && d in m && Code(c) == Code(d) ==> c == d
  }

  ghost predicate Increasing<R>(s: seq<CssData<R>>) {
    && (forall k :: 0 <= k < |s| ==> 0 <= s[k].chunkPosition <= 1)
    && forall a, b :: 0 <= a < b < |s| ==> Code(s[a]) < Code(s[b])
  }

  lemma {:induction false} TwiceInSeq<T>(s: seq<T>, i: nat, j: nat)
    requires i < j < |s| && s[i] == s[j]
    ensures multiset(s)[s[i]] >= 2
  {
    assert s == s[..j] + s[j..];
    assert s[i] in s[..j] && s[j] in s[j..];
  }

  lemma {:induction false} SortedIncreases<R>(s: seq<CssData<R>>)
    requires Sorted(s) && Distinct(multiset(s))
    ensures Increasing(s)
  {
    assert forall k :: 0 <= k < |s| ==> s[k] in multiset(s);
    forall a, b | 0 <= a < b < |s|
      ensures Code(s[a]) < Code(s[b])
    {
      assert InOrder(s[a], s[b]) && s[a] in multiset(s) && s[b] in multiset(s);
      if Code(s[a]) == Code(s[b]) {
        TwiceInSeq(s, a, b);
      }
    }
  }

  /** c0 and c1 are the two chunks of sequence q and do not hash to what is stored for q. */
  predicate Differs<R>(H: PairHash, chunkHash: seq<R> -> Hash, stored: map<int, Hash>,
                       c0: CssData<R>, c1: CssData<R>, q: int)
  {
    && c0.ihSequence == q && c0.chunkPosition == 0 && c1.ihSequence == q && c1.chunkPosition == 1
    && q in stored && stored[q] != PairIh(H, chunkHash, c0, c1)
  }

  ghost predicate Tampered<R>(H: PairHash, chunkHash: seq<R> -> Hash, stored: map<int, Hash>,
                              s: seq<CssData<R>>, q: int)
  {
    exists c0, c1 :: c0 in s && c1 in s && Differs(H, chunkHash, stored, c0, c1, q)
  }

  predicate Ascending(qs: seq<int>) {
    forall i, j :: 0 <= i < j < |qs| ==> qs[i] < qs[j]
  }

  /** Entries k and k + 1 are the differing pair of sequence q. */
  predicate DiffersAt<R>(H: PairHash, chunkHash: seq<R> -> Hash, stored: map<int, Hash>,
                         s: seq<CssData<R>>, k: nat, q: int)
  {
    k + 1 < |s| && Differs(H, chunkHash, stored, s[k], s[k + 1], q)
  }

  // ----- the loop

  /** Entry i opens its sequence, or i is one past the last entry. */
  predicate OpensSequence<R>(s: seq<CssData<R>>, i: nat) {
    i == 0 || i == |s| || (i < |s| && s[i - 1].ihSequence != s[i].ihSequence)
  }

  /** The last entry is the only one of its sequence. */
  predicate LastAlone<R>(s: seq<CssData<R>>) {
    |s| == 1 || (|s| > 1 && s[|s| - 2].ihSequence != s[|s| - 1].ihSequence)
  }

  /** Both steps of the loop lead from the opening of a sequence to the opening of the next. */
  lemma {:induction false} StepOpens<R>(s: seq<CssData<R>>, i: nat)
    requires Increasing(s) && OpensSequence(s, i) && i + 1 < |s|
    ensures s[i].ihSequence != s[i + 1].ihSequence ==> OpensSequence(s, i + 1)
    ensures s[i].ihSequence == s[i + 1].ihSequence ==>
      OpensSequence(s, i + 2) && s[i].chunkPosition == 0 && s[i + 1].chunkPosition == 1
  {
    assert Code(s[i]) < Code(s[i + 1]);
    if i + 2 < |s| {
      assert Code(s[i + 1]) < Code(s[i + 2]);
    }
  }

  /** Of distinct chunks a stretch has one or two, the first half before the second. */
  lemma {:induction false} EvenOpens<R>(s: seq<CssData<R>>, i: nat)
    requires Increasing(s) && i < |s|
    ensures Even(s, i) <==> OpensSequence(s, i)
    ensures StretchStart(s, i) >= i - 1
  {
    if i > 0 && s[i - 1].ihSequence == s[i].ihSequence {
      assert Code(s[i - 1]) < Code(s[i]);
      if i > 1 {
        assert Code(s[i - 2]) < Code(s[i - 1]);
      }
      assert StretchStart(s, i) == StretchStart(s, i - 1) == i - 1;
    }
  }

  /** So the last stretch is odd exactly when the last entry stands alone. */
  lemma {:induction false} LastOddAlone<R>(s: seq<CssData<R>>)
    requires Increasing(s)
    ensures LastOdd(s) <==> LastAlone(s)
  {
    if s != [] {
      EvenOpens(s, |s| - 1);
    }
  }

  /** The loop then runs off the end exactly when the last entry is the only one of its sequence. */
  lemma {:induction false} ScanPanics<R>(H: PairHash, chunkHash: seq<R> -> Hash, stored: map<int, Hash>,
                                         s: seq<CssData<R>>, i: nat)
    requires Increasing(s) && OpensSequence(s, i) && i < |s|
    ensures Scan(H, chunkHash, stored, s, i).None? <==> LastAlone(s)
  {
    EvenOpens(s, i);
    LoopPanics(H, chunkHash, stored, s, i);
    LastOddAlone(s);
  }

  lemma {:induction false} ScanAscends<R>(H: PairHash, chunkHash: seq<R> -> Hash, stored: map<int, Hash>,
                                          s: seq<CssData<R>>, i: nat)
    requires Increasing(s) && OpensSequence(s, i) && i <= |s| && Scan(H, chunkHash, stored, s, i).Some?
    ensures Ascending(Scan(H, chunkHash, stored, s, i).value)
    ensures forall p :: p in Scan(H, chunkHash, stored, s, i).value ==> i < |s| && p >= s[i].ihSequence
    decreases |s| - i
  {
    if i + 1 < |s| {
      StepOpens(s, i);
      assert Code(s[i]) < Code(s[i + 1]);
      if s[i].ihSequence != s[i + 1].ihSequence {
        ScanAscends(H, chunkHash, stored, s, i + 1);
      } else {
        ScanAscends(H, chunkHash, stored, s, i + 2);
        var rest := Scan(H, chunkHash, stored, s, i + 2).value;
        forall k | 0 <= k < |rest|
          ensures rest[k] > s[i].ihSequence
        {
          assert rest[k] in rest && Code(s[i + 1]) < Code(s[i + 2]);
        }
      }
    }
  }

  /** When it does not, it reports exactly the differing whole sequences from entry i on. */
  lemma {:induction false} ScanReports<R>(H: PairHash, chunkHash: seq<R> -> Hash, stored: map<int, Hash>,
                                          s: seq<CssData<R>>, i: nat, q: int)
    requires Increasing(s) && OpensSequence(s, i) && i <= |s| && Scan(H, chunkHash, stored, s, i).Some?
    ensures q in Scan(H, chunkHash, stored, s, i).value <==>
      exists k: nat :: i <= k && DiffersAt(H, chunkHash, stored, s, k, q)
  {
    if i < |s| {
      EvenOpens(s, i);
    }
    LoopReports(H, chunkHash, stored, s, i, q);
    forall k: nat
      ensures Mismatch(H, chunkHash, stored, s, k, q) <==> DiffersAt(H, chunkHash, stored, s, k, q)
    {
      if k + 1 < |s| {
        EvenOpens(s, k);
        assert Code(s[k]) < Code(s[k + 1]);
        if 0 < k {
          assert Code(s[k - 1]) < Code(s[k]);
        }
      }
    }
  }

  /** In increasing order the two chunks of a sequence are neighbours. */
  lemma {:induction false} TamperedAdjacent<R>(H: PairHash, chunkHash: seq<R> -> Hash, stored: map<int, Hash>,
                                               s: seq<CssData<R>>, q: int)
    requires Increasing(s)
    ensures Tampered(H, chunkHash, stored, s, q) <==>
      exists k: nat :: 0 <= k && DiffersAt(H, chunkHash, stored, s, k, q)
  {
    if Tampered(H, chunkHash, stored, s, q) {
      var c0, c1 :| c0 in s && c1 in s && Differs(H, chunkHash, stored, c0, c1, q);
      var a :| 0 <= a < |s| && s[a] == c0;
      var b :| 0 <= b < |s| && s[b] == c1;
      assert Code(s[b]) == Code(s[a]) + 1;
      assert a < b && Code(s[a + 1]) <= Code(s[b]);
      assert DiffersAt(H, chunkHash, stored, s, a, q);
    }
    if k: nat :| 0 <= k && DiffersAt(H, chunkHash, stored, s, k, q) {
      assert s[k] in s && s[k + 1] in s;
    }
  }

  // ----- the whole check

  /** Without a closing first half, what is left ends in the two chunks of one sequence. */
  predicate EndsWhole<R>(s: seq<CssData<R>>) {
    var n := if s != [] && s[|s| - 1].chunkPosition == 0 then |s| - 1 else |s|;
    n >= 2 && s[n - 2].ihSequence == s[n - 1].ihSequence
  }

  lemma {:induction false} TrimIsSlice<R>(s: seq<CssData<R>>) returns (a: nat, b: nat)
    requires Increasing(s) && Trim(s).Some?
    ensures a == s[0].chunkPosition && b == 1 - s[|s| - 1].chunkPosition
    ensures a + b < |s| && Trim(s).value == s[a..|s| - b]
  {
    a, b := s[0].chunkPosition, 1 - s[|s| - 1].chunkPosition;
    var s1 := if s[0].chunkPosition != 0 then s[1..] else s;
    assert s1 == s[a..] && s1[|s1| - 1] == s[|s| - 1];
  }

  lemma {:induction false} TrimIncreases<R>(s: seq<CssData<R>>)
    requires Increasing(s) && Trim(s).Some?
    ensures Increasing(Trim(s).value)
  {
    var a, b := TrimIsSlice(s);
  }

  /** The trimmed slice is missing or ends in a single chunk exactly when s does not end whole. */
  lemma {:induction false} TrimEndsAlone<R>(s: seq<CssData<R>>)
    requires Increasing(s)
    ensures Trim(s).None? || LastAlone(Trim(s).value) <==> !EndsWhole(s)
  {
    if |s| >= 2 {
      assert Code(s[|s| - 2]) < Code(s[|s| - 1]);
      if |s| >= 3 {
        assert Code(s[|s| - 3]) < Code(s[|s| - 2]);
      }
      if Trim(s).Some? {
        var a, b := TrimIsSlice(s);
      }
    }
  }

  /** Neither dropped chunk belongs to a whole pair. */
  lemma {:induction false} TrimKeepsTampered<R>(H: PairHash, chunkHash: seq<R> -> Hash, stored: map<int, Hash>,
                                                s: seq<CssData<R>>, q: int)
    requires Increasing(s) && Trim(s).Some?
    ensures Tampered(H, chunkHash, stored, s, q) <==> Tampered(H, chunkHash, stored, Trim(s).value, q)
  {
    var a, b := TrimIsSlice(s);
    var t := Trim(s).value;
    TamperedAdjacent(H, chunkHash, stored, s, q);
    if Tampered(H, chunkHash, stored, s, q) {
      var k: nat :| 0 <= k && DiffersAt(H, chunkHash, stored, s, k, q);
      assert t[k - a] == s[k] && t[k + 1 - a] == s[k + 1];
      assert t[k - a] in t && t[k + 1 - a] in t;
    }
    assert forall c :: c in t ==> c in s;
  }

  lemma {:induction false} SameMembers<R>(H: PairHash, chunkHash: seq<R> -> Hash, stored: map<int, Hash>,
                                          a: seq<CssData<R>>, b: seq<CssData<R>>, q: int)
    requires multiset(a) == multiset(b)
    ensures Tampered(H, chunkHash, stored, a, q) <==> Tampered(H, chunkHash, stored, b, q)
  {
    assert forall c :: c in a <==> c in multiset(a);
    assert forall c :: c in b <==> c in multiset(b);
  }

  /**
   For every ordering of distinct chunks, gaps or not: the check panics exactly when, a closing
   first half put aside, the chunks in order do not end in a whole pair. Otherwise the reported
   list is the ascending list of the whole sequences whose stored hash differs.
   */
  lemma {:induction false} CheckExact<R>(H: PairHash, chunkHash: seq<R> -> Hash, stored: map<int, Hash>,
                                         data: seq<CssData<R>>, sorted: seq<CssData<R>>, q: int)
    requires Distinct(multiset(data)) && Sorted(sorted) && multiset(sorted) == multiset(data)
    ensures var outcome := Check(H, chunkHash, Some(stored), sorted);
      && (outcome.Panicked? <==> !EndsWhole(sorted))
      && (outcome.Panicked? <==> Trim(sorted).None? || LastAlone(Trim(sorted).value))
      && (outcome.Verdict? ==> Ascending(outcome.failed) && (outcome.ok <==> outcome.failed == []))
      && (outcome.Verdict? ==> (q in outcome.failed <==> Tampered(H, chunkHash, stored, data, q)))
  {
    SortedIncreases(sorted);
    TrimEndsAlone(sorted);
    if Trim(sorted).Some? {
      var t := Trim(sorted).value;
      TrimIncreases(sorted);
      ScanPanics(H, chunkHash, stored, t, 0);
      if !LastAlone(t) {
        ScanAscends(H, chunkHash, stored, t, 0);
        ScanReports(H, chunkHash, stored, t, 0, q);
        TamperedAdjacent(H, chunkHash, stored, t, q);
        TrimKeepsTampered(H, chunkHash, stored, sorted, q);
        SameMembers(H, chunkHash, stored, data, sorted, q);
      }
    }
  }

  /** Without an answer of the storage node only an emptied slice panics, and nothing passes. */
  lemma {:induction false} NoAnswerFails<R>(H: PairHash, chunkHash: seq<R> -> Hash, s: seq<CssData<R>>)
    requires Sorted(s) && Distinct(multiset(s))
    ensures Check(H, chunkHash, None, s) ==
      if |s| < 2 || (|s| == 2 && s[0].chunkPosition == 1 && s[1].chunkPosition == 0) then Panicked
      else Verdict(false, [])
  {
    SortedIncreases(s);
    if Trim(s).Some? {
      var a, b := TrimIsSlice(s);
    }
  }

  /**
   When the check passes, the two chunks of a sequence whose stored hash was made from the
   records r0 and r1 hold those records, or two chunks, or two pairs, hash alike.
   */
  lemma {:induction false} PassedBinds<R>(H: PairHash, chunkHash: seq<R> -> Hash, stored: map<int, Hash>,
                                          data: seq<CssData<R>>, sorted: seq<CssData<R>>,
                                          c0: CssData<R>, c1: CssData<R>, r0: seq<R>, r1: seq<R>)
    requires Distinct(multiset(data)) && Sorted(sorted) && multiset(sorted) == multiset(data)
    requires Check(H, chunkHash, Some(stored), sorted) == Verdict(true, [])
    requires c0 in data && c0.chunkPosition == 0 && c1 in data && c1.chunkPosition == 1
    requires c0.ihSequence == c1.ihSequence && c0.ihSequence in stored
    requires stored[c0.ihSequence] == H(chunkHash(r0), chunkHash(r1))
    ensures Bound(H, chunkHash, c0, c1, r0, r1)
  {
    var q := c0.ihSequence;
    CheckExact(H, chunkHash, stored, data, sorted, q);
    assert !Differs(H, chunkHash, stored, c0, c1, q);
  }

  /** The check cannot tell a missing stored hash from a matching one. */
  lemma {:induction false} MissingHashPasses<R>(H: PairHash, chunkHash: seq<R> -> Hash,
                                                data: seq<CssData<R>>, sorted: seq<CssData<R>>)
    requires Distinct(multiset(data)) && Sorted(sorted) && multiset(sorted) == multiset(data)
    ensures Check(H, chunkHash, Some(map[]), sorted) == if EndsWhole(sorted) then Verdict(true, []) else Panicked
  {
    var outcome := Check(H, chunkHash, Some(map[]), sorted);
    CheckExact(H, chunkHash, map[], data, sorted, 0);
    if outcome.Verdict? && outcome.failed != [] {
      CheckExact(H, chunkHash, map[], data, sorted, outcome.failed[0]);
    }
  }

  // ----- a gap-free run of chunks

  /** The chunks numbered lo to hi, each once, in whatever order. */
  ghost predicate GapFree<R>(m: multiset<CssData<R>>, lo: int, hi: int) {
    && Distinct(m)
    && |m| == hi - lo + 1
    && forall c :: c in m ==> lo <= Code(c) <= hi
  }

  /** Some sequence number has both its chunks among lo to hi. */
  predicate HasWholePair(lo: int, hi: int) {
    lo + lo % 2 + 1 <= hi
  }

  lemma {:induction false} AtLeast<R>(s: seq<CssData<R>>, lo: int, i: nat)
    requires Increasing(s)
    requires i < |s| && forall c :: c in multiset(s) ==> lo <= Code(c)
    ensures Code(s[i]) >= lo + i
    decreases i
  {
    if i == 0 {
      assert s[0] in multiset(s);
    } else {
      AtLeast(s, lo, i - 1);
    }
  }

  lemma {:induction false} AtMost<R>(s: seq<CssData<R>>, hi: int, i: nat)
    requires Increasing(s)
    requires i < |s| && forall c :: c in multiset(s) ==> Code(c) <= hi
    ensures Code(s[i]) <= hi - (|s| - 1 - i)
    decreases |s| - i
  {
    if i == |s| - 1 {
      assert s[i] in multiset(s);
    } else {
      AtMost(s, hi, i + 1);
    }
  }

  /** Entry i is chunk number lo + i. */
  ghost predicate Numbered<R>(s: seq<CssData<R>>, lo: int, hi: int) {
    |s| == hi - lo + 1 && forall i :: 0 <= i < |s| ==> Code(s[i]) == lo + i && 0 <= s[i].chunkPosition <= 1
  }

  /** Sorted, such chunks are numbered consecutively. */
  lemma {:induction false} SortedNumbered<R>(s: seq<CssData<R>>, lo: int, hi: int)
    requires Sorted(s) && GapFree(multiset(s), lo, hi)
    ensures Numbered(s, lo, hi)
  {
    SortedIncreases(s);
    assert |s| == |multiset(s)|;
    forall i | 0 <= i < |s|
      ensures Code(s[i]) == lo + i && 0 <= s[i].chunkPosition <= 1
    {
      AtLeast(s, lo, i);
      AtMost(s, hi, i);
    }
  }

  /** Whole pairs only: entry k is numbered from + k, from is even and so is the length. */
  ghost predicate WholePairs<R>(s: seq<CssData<R>>, from: int) {
    && from % 2 == 0 && |s| % 2 == 0 && s != []
    && forall k :: 0 <= k < |s| ==> 0 <= s[k].chunkPosition <= 1 && Code(s[k]) == from + k
  }

  lemma {:induction false} Double(x: int)
    ensures (2 * x) % 2 == 0
  {}

  lemma {:induction false} Evens(lo: int, hi: int)
    ensures (lo + lo % 2) % 2 == 0 && (hi - lo + 1 - lo % 2 - (hi + 1) % 2) % 2 == 0
    ensures HasWholePair(lo, hi) <==> lo % 2 + (hi + 1) % 2 < hi - lo + 1
  {
    var a, p, b, r := lo / 2, lo % 2, (hi + 1) / 2, (hi + 1) % 2;
    assert lo == 2 * a + p && hi + 1 == 2 * b + r;
    Double(a + p);
    Double(b - a - p);
    assert lo + p == 2 * (a + p) && hi - lo + 1 - p - r == 2 * (b - a - p);
  }

  lemma {:induction false} NumberedEnds<R>(s: seq<CssData<R>>, lo: int, hi: int)
    requires Numbered(s, lo, hi) && s != []
    ensures s[0].chunkPosition == lo % 2 && 1 - s[|s| - 1].chunkPosition == (hi + 1) % 2
  {
    var n := |s| - 1;
    assert Code(s[0]) == lo && Code(s[n]) == hi;
  }

  lemma {:induction false} TrimEmpties<R>(s: seq<CssData<R>>)
    requires s != [] && Increasing(s) && s[0].chunkPosition + 1 - s[|s| - 1].chunkPosition >= |s|
    ensures Trim(s) == None
  {}

  /** Trimming a numbered run drops the odd first and the even last number: its whole pairs remain. */
  lemma {:induction false} TrimLeavesWholePairs<R>(s: seq<CssData<R>>, lo: int, hi: int)
    requires Numbered(s, lo, hi)
    ensures Trim(s).Some? <==> HasWholePair(lo, hi)
    ensures HasWholePair(lo, hi) ==> WholePairs(Trim(s).value, lo + lo % 2)
    ensures HasWholePair(lo, hi) ==> Trim(s).value == s[lo % 2..|s| - (hi + 1) % 2]
  {
    Evens(lo, hi);
    if s != [] {
      NumberedEnds(s, lo, hi);
      if !HasWholePair(lo, hi) {
        TrimEmpties(s);
      } else {
        TrimSurvives(s);
        var a, b := TrimIsSlice(s);
      }
    }
  }

  lemma {:induction false} TrimSurvives<R>(s: seq<CssData<R>>)
    requires s != [] && Increasing(s) && s[0].chunkPosition + 1 - s[|s| - 1].chunkPosition < |s|
    ensures Trim(s).Some?
  {}

  lemma {:induction false} NumberedEndsWhole<R>(s: seq<CssData<R>>, lo: int, hi: int)
    requires Numbered(s, lo, hi)
    ensures EndsWhole(s) <==> HasWholePair(lo, hi)
  {
    Evens(lo, hi);
    if s != [] {
      NumberedEnds(s, lo, hi);
      var n := |s| - (hi + 1) % 2;
      if n >= 2 {
        assert Code(s[n - 2]) + 1 == Code(s[n - 1]) && s[n - 1].chunkPosition == 1;
      }
    }
  }

  /** For such a run the check panics exactly when no sequence number has both its chunks. */
  lemma {:induction false} GapFreePanics<R>(H: PairHash, chunkHash: seq<R> -> Hash, stored: map<int, Hash>,
                                            data: seq<CssData<R>>, sorted: seq<CssData<R>>, lo: int, hi: int)
    requires GapFree(multiset(data), lo, hi) && Sorted(sorted) && multiset(sorted) == multiset(data)
    ensures Check(H, chunkHash, Some(stored), sorted) == Panicked <==> !HasWholePair(lo, hi)
  {
    CheckExact(H, chunkHash, stored, data, sorted, 0);
    SortedNumbered(sorted, lo, hi);
    NumberedEndsWhole(sorted, lo, hi);
  }

  // ----- what a missing chunk does

  /** The second half of sequence 2 alone at the end: a panic, although sequence 1 is whole. */
  lemma {:induction false} GapBeforeLastPanics<R>(H: PairHash, chunkHash: seq<R> -> Hash, stored: map<int, Hash>,
                                                  s: seq<CssData<R>>)
    requires |s| == 3 && Code(s[0]) == 2 && Code(s[1]) == 3 && Code(s[2]) == 5
    requires forall k :: 0 <= k < 3 ==> 0 <= s[k].chunkPosition <= 1
    ensures Check(H, chunkHash, Some(stored), s) == Panicked
  {
    var t := Trim(s).value;
    assert t == s;
    assert Scan(H, chunkHash, stored, s, 2).None?;
    assert Scan(H, chunkHash, stored, s, 0).None?;
  }

  /** A chunk missing between two whole pairs goes unreported. */
  lemma {:induction false} GapInsidePasses<R>(H: PairHash, chunkHash: seq<R> -> Hash, stored: map<int, Hash>,
                                              s: seq<CssData<R>>)
    requires |s| == 5 && Code(s[0]) == 2 && Code(s[1]) == 3 && Code(s[2]) == 4 && Code(s[3]) == 6 && Code(s[4]) == 7
    requires forall k :: 0 <= k < 5 ==> 0 <= s[k].chunkPosition <= 1
    requires 1 in stored && stored[1] == PairIh(H, chunkHash, s[0], s[1])
    requires 3 in stored && stored[3] == PairIh(H, chunkHash, s[3], s[4])
    ensures Check(H, chunkHash, Some(stored), s) == Verdict(true, [])
  {
    assert Trim(s) == Some(s);
    assert Scan(H, chunkHash, stored, s, 5) == Some([]);
    assert Scan(H, chunkHash, stored, s, 3) == Some([]);
    assert Scan(H, chunkHash, stored, s, 2) == Some([]);
  }

  /** A lone half pair makes the source index an empty slice. */
  lemma {:induction false} LoneHalfPanics<R>(H: PairHash, chunkHash: seq<R> -> Hash, stored: Option<map<int, Hash>>,
                                             c: CssData<R>)
    requires 0 <= c.chunkPosition <= 1
    ensures Check(H, chunkHash, stored, [c]) == Panicked
  {}
}
