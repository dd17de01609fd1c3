/**
 The IoT app's whole-session check: pair hashes of consecutive chunks, a Merkle root over
 them with zero padding, and what an equal root says about the records. SHA-256 over the
 concatenated hex of two hashes is a parameter; no collision resistance is assumed.
 */
module Merkle {
  import opened Go
  import opened Dag

  type PairHash = (Hash, Hash) -> Hash

  // ----- the tree

  /** The i-th pair of a level; an odd last entry is paired with the zero hash. */
  function PairAt(xs: seq<Hash>, i: nat): (Hash, Hash)
    requires 2 * i < |xs|
  {
    (xs[2 * i], if 2 * i + 1 < |xs| then xs[2 * i + 1] else ZERO)
  }

  function NextLevel(H: PairHash, xs: seq<Hash>): (ys: seq<Hash>)
    ensures |ys| == (|xs| + 1) / 2
    ensures forall i :: 0 <= i < |ys| ==> ys[i] == H(PairAt(xs, i).0, PairAt(xs, i).1)
  {
    seq((|xs| + 1) / 2, i requires 0 <= i < (|xs| + 1) / 2 => H(PairAt(xs, i).0, PairAt(xs, i).1))
  }

  /** Entry i of a level is the hash of the entries 2i and 2i + 1 below it, in this order. */
  lemma {:induction false} NextLevelExactly(H: PairHash, xs: seq<Hash>)
    ensures |NextLevel(H, xs)| == (|xs| + 1) / 2
    ensures forall i :: 0 <= i < |NextLevel(H, xs)| ==>
      NextLevel(H, xs)[i] == H(xs[2 * i], if 2 * i + 1 < |xs| then xs[2 * i + 1] else ZERO)
  {}

  function Root(H: PairHash, xs: seq<Hash>): Hash
    decreases |xs|
  {
    if |xs| < 1 then ZERO
    else if |xs| == 1 then xs[0]
    else Root(H, NextLevel(H, xs))
  }

  /** The k-th level above the leaves. */
  function Level(H: PairHash, xs: seq<Hash>, k: nat): seq<Hash>
    decreases k
  {
    if k == 0 then xs else Level(H, NextLevel(H, xs), k - 1)
  }

  method GenerateMerkleRoot(H: PairHash, ihHash: seq<Hash>) returns (root: Hash)
    ensures root == Root(H, ihHash)
    decreases |ihHash|
  {
    if |ihHash| < 1 {
      return ZERO;
    }
    if |ihHash| == 1 {
      return ihHash[0];
    }
    var tempHashArray: seq<Hash> := [];
    var i := 0;
    while i < |ihHash|
      invariant i == 2 * |tempHashArray| && i <= |ihHash| + 1
      invariant tempHashArray <= NextLevel(H, ihHash)
    {
      var ih1 := ihHash[i];
      var ih2 := ZERO;
      if i + 1 < |ihHash| {
        ih2 := ihHash[i + 1];
      }
      tempHashArray := tempHashArray + [H(ih1, ih2)];
      i := i + 2;
    }
    assert tempHashArray == NextLevel(H, ihHash);
    root := GenerateMerkleRoot(H, tempHashArray);
  }

  /** The number of levels above n leaves. */
  function Depth(n: nat): nat {
    if n <= 1 then 0 else 1 + Depth((n + 1) / 2)
  }

  /** The root of a non-empty list is the one entry of the top level; an empty list has the zero root. */
  lemma {:induction false} RootIsTop(H: PairHash, xs: seq<Hash>)
    ensures xs != [] ==> Level(H, xs, Depth(|xs|)) == [Root(H, xs)]
    ensures xs == [] ==> Root(H, xs) == ZERO
    decreases |xs|
  {
    if |xs| > 1 {
      RootIsTop(H, NextLevel(H, xs));
    }
  }

  // ----- what an equal root says

  /** Different pairs at one place of two levels that hash alike. */
  ghost predicate Collide(H: PairHash, xs: seq<Hash>, ys: seq<Hash>, i: nat) {
    && 2 * i < |xs| && 2 * i < |ys|
    && PairAt(xs, i) != PairAt(ys, i)
    && H(PairAt(xs, i).0, PairAt(xs, i).1) == H(PairAt(ys, i).0, PairAt(ys, i).1)
  }

  /** Two different pairs the two trees really hash, at one place of one level. */
  ghost predicate TreeCollision(H: PairHash, xs: seq<Hash>, ys: seq<Hash>) {
    exists k: nat, i: nat :: k < Depth(|xs|) && Collide(H, Level(H, xs, k), Level(H, ys, k), i)
  }

  ghost predicate ZeroPairAt(H: PairHash, xs: seq<Hash>, i: nat) {
    2 * i < |xs| && H(PairAt(xs, i).0, PairAt(xs, i).1) == ZERO
  }

  /** Some pair the tree hashes has the zero hash. */
  ghost predicate ZeroPair(H: PairHash, xs: seq<Hash>) {
    exists k: nat, i: nat :: k < Depth(|xs|) && ZeroPairAt(H, Level(H, xs, k), i)
  }

  /** ys only adds the zero hash that pads an odd level, or that stands for an empty list. */
  predicate PadsTo(xs: seq<Hash>, ys: seq<Hash>) {
    ys == xs + [ZERO] && (xs == [] || (|xs| % 2 == 1 && |xs| > 1))
  }

  predicate SameUpToPadding(xs: seq<Hash>, ys: seq<Hash>) {
    xs == ys || PadsTo(xs, ys) || PadsTo(ys, xs)
  }

  /** Equal next levels over equally many levels: the same leaves up to padding, or a collision. */
  lemma {:induction false} EqualLevelsOrCollide(H: PairHash, xs: seq<Hash>, ys: seq<Hash>)
    requires |xs| > 1 && |ys| > 1 && NextLevel(H, xs) == NextLevel(H, ys)
    ensures SameUpToPadding(xs, ys) || exists i: nat :: Collide(H, xs, ys, i)
  {
    if forall i: nat :: !Collide(H, xs, ys, i) {
      forall j | 0 <= j < |xs| && j < |ys|
        ensures xs[j] == ys[j]
      {
        assert NextLevel(H, xs)[j / 2] == NextLevel(H, ys)[j / 2];
        assert !Collide(H, xs, ys, j / 2);
      }
      var last := |NextLevel(H, xs)| - 1;
      assert !Collide(H, xs, ys, last);
      if |xs| < |ys| {
        assert ys == xs + [ZERO];
      } else if |ys| < |xs| {
        assert xs == ys + [ZERO];
      }
    }
  }

  lemma {:induction false} CollisionAbove(H: PairHash, xs: seq<Hash>, ys: seq<Hash>)
    requires |xs| > 1 && TreeCollision(H, NextLevel(H, xs), NextLevel(H, ys))
    ensures TreeCollision(H, xs, ys)
  {
    var xs', ys' := NextLevel(H, xs), NextLevel(H, ys);
    var k: nat, i: nat :| k < Depth(|xs'|) && Collide(H, Level(H, xs', k), Level(H, ys', k), i);
    assert Level(H, xs, k + 1) == Level(H, xs', k) && Level(H, ys, k + 1) == Level(H, ys', k);
  }

  lemma {:induction false} ZeroPairAbove(H: PairHash, xs: seq<Hash>)
    requires |xs| > 1 && ZeroPair(H, NextLevel(H, xs))
    ensures ZeroPair(H, xs)
  {
    var xs' := NextLevel(H, xs);
    var k: nat, i: nat :| k < Depth(|xs'|) && ZeroPairAt(H, Level(H, xs', k), i);
    assert Level(H, xs, k + 1) == Level(H, xs', k);
  }

  /** An inner entry is zero only if its pair hashes to zero. */
  lemma {:induction false} ZeroEntry(H: PairHash, xs: seq<Hash>, i: nat)
    requires |xs| > 1 && i < |NextLevel(H, xs)| && NextLevel(H, xs)[i] == ZERO
    ensures ZeroPair(H, xs)
  {
    assert Level(H, xs, 0) == xs;
    assert ZeroPairAt(H, Level(H, xs, 0), i);
  }

  /** Two trees of one depth with one root: the same leaves up to padding, a collision, or a zero pair. */
  lemma {:induction false} SameDepthBinds(H: PairHash, xs: seq<Hash>, ys: seq<Hash>)
    requires Depth(|xs|) == Depth(|ys|) && Root(H, xs) == Root(H, ys)
    ensures SameUpToPadding(xs, ys) || TreeCollision(H, xs, ys) || ZeroPair(H, xs) || ZeroPair(H, ys)
    decreases |xs|
  {
    if |xs| > 1 {
      var xs', ys' := NextLevel(H, xs), NextLevel(H, ys);
      SameDepthBinds(H, xs', ys');
      if TreeCollision(H, xs', ys') {
        CollisionAbove(H, xs, ys);
      } else if ZeroPair(H, xs') {
        ZeroPairAbove(H, xs);
      } else if ZeroPair(H, ys') {
        ZeroPairAbove(H, ys);
      } else if xs' == ys' {
        EqualLevelsOrCollide(H, xs, ys);
        assert Level(H, xs, 0) == xs && Level(H, ys, 0) == ys;
      } else if PadsTo(xs', ys') {
        ZeroEntry(H, ys, |ys'| - 1);
      } else {
        ZeroEntry(H, xs, |xs'| - 1);
      }
    } else {
      assert |xs| == 1 ==> xs == [Root(H, xs)];
      assert |ys| == 1 ==> ys == [Root(H, ys)];
    }
  }

  /** Leaves and inner nodes are hashed alike, so every level of a tree has the root of the leaves. */
  lemma {:induction false} LevelsShareRoot(H: PairHash, xs: seq<Hash>, k: nat)
    requires k <= Depth(|xs|)
    ensures Root(H, Level(H, xs, k)) == Root(H, xs)
    ensures Depth(|Level(H, xs, k)|) == Depth(|xs|) - k
    decreases k
  {
    if k > 0 {
      LevelsShareRoot(H, NextLevel(H, xs), k - 1);
    }
  }

  /**
   Lists of any two lengths with one root: the shorter tree's leaves are, up to padding, a level of
   the taller tree, or two pairs collide, or a pair hashes to zero.
   */
  lemma {:induction false} RootBindsAcross(H: PairHash, xs: seq<Hash>, ys: seq<Hash>)
    requires Depth(|xs|) >= Depth(|ys|) && Root(H, xs) == Root(H, ys)
    ensures var zs := Level(H, xs, Depth(|xs|) - Depth(|ys|));
      SameUpToPadding(zs, ys) || TreeCollision(H, zs, ys) || ZeroPair(H, zs) || ZeroPair(H, ys)
  {
    var k := Depth(|xs|) - Depth(|ys|);
    LevelsShareRoot(H, xs, k);
    SameDepthBinds(H, Level(H, xs, k), ys);
  }

  /** And any list that is a level of another one's tree, up to padding, does have its root. */
  lemma {:induction false} SameUpToPaddingShareRoot(H: PairHash, xs: seq<Hash>, ys: seq<Hash>, k: nat)
    requires k <= Depth(|xs|) && SameUpToPadding(Level(H, xs, k), ys)
    ensures Root(H, xs) == Root(H, ys)
  {
    LevelsShareRoot(H, xs, k);
    var zs := Level(H, xs, k);
    if PadsTo(zs, ys) && zs != [] {
      PaddingIsInvisible(H, zs);
    } else if PadsTo(ys, zs) && ys != [] {
      PaddingIsInvisible(H, ys);
    }
  }

  /** A zero leaf after an odd number of leaves is invisible. */
  lemma {:induction false} PaddingIsInvisible(H: PairHash, xs: seq<Hash>)
    requires |xs| % 2 == 1 && |xs| > 1
    ensures Root(H, xs) == Root(H, xs + [ZERO])
  {
    assert NextLevel(H, xs) == NextLevel(H, xs + [ZERO]);
  }

  /** Equal roots over equally many leaves mean equal leaves, or a collision inside the two trees. */
  lemma {:induction false} RootBinds(H: PairHash, xs: seq<Hash>, ys: seq<Hash>)
    requires |xs| == |ys| && Root(H, xs) == Root(H, ys)
    ensures xs == ys || TreeCollision(H, xs, ys)
    decreases |xs|
  {
    if |xs| > 1 {
      var xs', ys' := NextLevel(H, xs), NextLevel(H, ys);
      RootBinds(H, xs', ys');
      if xs' != ys' {
        CollisionAbove(H, xs, ys);
      } else if xs != ys {
        EqualLevelsOrCollide(H, xs, ys);
        assert Level(H, xs, 0) == xs && Level(H, ys, 0) == ys;
      }
    } else {
      assert |xs| == 1 ==> xs == [Root(H, xs)] && ys == [Root(H, ys)];
    }
  }

  // ----- the session check

  /** One chunk as the storage service returns it; R is the type of a record. */
  datatype CssData<R> = CssData(ihSequence: int, chunkPosition: int, records: seq<R>)

  /** The intermediate hashes of consecutive pairs; an odd last chunk is left over. */
  function PairUp(H: PairHash, chunks: seq<Hash>): (ihs: seq<Hash>)
    ensures |ihs| == |chunks| / 2
    ensures forall i :: 0 <= i < |ihs| ==> ihs[i] == H(chunks[2 * i], chunks[2 * i + 1])
  {
    seq(|chunks| / 2, i requires 0 <= i < |chunks| / 2 => H(chunks[2 * i], chunks[2 * i + 1]))
  }

  function ChunkIds<R>(chunkHash: seq<R> -> Hash, data: seq<CssData<R>>): (ids: seq<Hash>)
    ensures |ids| == |data| && forall i :: 0 <= i < |ids| ==> ids[i] == chunkHash(data[i].records)
  {
    seq(|data|, i requires 0 <= i < |data| => chunkHash(data[i].records))
  }

  function SessionRoot<R>(H: PairHash, chunkHash: seq<R> -> Hash, data: seq<CssData<R>>): Hash {
    Root(H, PairUp(H, ChunkIds(chunkHash, data)))
  }

  /**
   stored is the root the storage node returns, None if the request fails. The result is None
   where Go indexes an empty slice for the name of the stored root.
   */
  method VerifyMH<R>(H: PairHash, chunkHash: seq<R> -> Hash, data: seq<CssData<R>>, stored: Option<Hash>)
    returns (ok: Option<bool>)
    ensures ok.None? <==> data == []
    ensures ok.Some? ==> (ok.value <==> stored == Some(SessionRoot(H, chunkHash, data)))
  {
    ghost var ids := ChunkIds(chunkHash, data);
    var chunkArray: seq<Hash> := [];
    var ihHashes: seq<Hash> := [];
    for i := 0 to |data|
      invariant |ihHashes| == i / 2 && ihHashes <= PairUp(H, ids)
      invariant chunkArray == ids[2 * (i / 2)..i]
    {
      var chunk := chunkHash(data[i].records);
      chunkArray := chunkArray + [chunk];
      if |chunkArray| < 2 {
        continue;
      }
      var chunk1, chunk2 := chunkArray[0], chunkArray[1];
      chunkArray := chunkArray[2..];
      assert chunk1 == ids[i - 1] && chunk2 == ids[i];
      ihHashes := ihHashes + [H(chunk1, chunk2)];
    }
    assert ihHashes == PairUp(H, ids);
    var mh := GenerateMerkleRoot(H, ihHashes);
    if |data| == 0 {
      return None;
    }
    match stored
    case None => ok := Some(false);
    case Some(mhFromSN) => ok := Some(mh == mhFromSN);
  }

  /** Different records at one place with the same chunk hash. */
  ghost predicate ChunkCollision<R>(chunkHash: seq<R> -> Hash, d: seq<CssData<R>>, e: seq<CssData<R>>) {
    exists i :: 0 <= i < |d| && i < |e| && d[i].records != e[i].records &&
                chunkHash(d[i].records) == chunkHash(e[i].records)
  }

  /** Different chunk pairs at one place with the same intermediate hash. */
  ghost predicate PairCollision(H: PairHash, c: seq<Hash>, d: seq<Hash>) {
    exists i: nat :: Collide(H, c, d, i)
  }

  /** Equal session roots over n chunks bind the records of the first 2*(n/2) of them, up to a collision. */
  lemma {:induction false} SessionBinds<R>(H: PairHash, chunkHash: seq<R> -> Hash,
                                           d: seq<CssData<R>>, e: seq<CssData<R>>)
    requires |d| == |e| && SessionRoot(H, chunkHash, d) == SessionRoot(H, chunkHash, e)
    ensures
      || (forall i :: 0 <= i < 2 * (|d| / 2) ==> d[i].records == e[i].records)
      || ChunkCollision(chunkHash, d, e)
      || PairCollision(H, ChunkIds(chunkHash, d), ChunkIds(chunkHash, e))
      || TreeCollision(H, PairUp(H, ChunkIds(chunkHash, d)), PairUp(H, ChunkIds(chunkHash, e)))
  {
    var ds, es := ChunkIds(chunkHash, d), ChunkIds(chunkHash, e);
    RootBinds(H, PairUp(H, ds), PairUp(H, es));
    if PairUp(H, ds) == PairUp(H, es) && !PairCollision(H, ds, es) {
      forall i | 0 <= i < 2 * (|d| / 2)
        ensures ds[i] == es[i]
      {
        assert PairUp(H, ds)[i / 2] == PairUp(H, es)[i / 2];
        assert !Collide(H, ds, es, i / 2);
      }
    }
  }

  /** Two chunks have the hash of their two hashes for a root; three the same, whatever the third is. */
  lemma {:induction false} SmallSessions<R>(H: PairHash, chunkHash: seq<R> -> Hash, data: seq<CssData<R>>)
    requires |data| == 2 || |data| == 3
    ensures SessionRoot(H, chunkHash, data) == H(chunkHash(data[0].records), chunkHash(data[1].records))
  {
    var ids := ChunkIds(chunkHash, data);
    assert PairUp(H, ids) == [H(ids[0], ids[1])];
  }

  /** No more than that is bound: the last of an odd number of chunks can be anything. */
  lemma {:induction false} LastOddChunkUnbound<R>(H: PairHash, chunkHash: seq<R> -> Hash,
                                                  d: seq<CssData<R>>, last: CssData<R>)
    requires |d| % 2 == 1
    ensures SessionRoot(H, chunkHash, d[|d| - 1 := last]) == SessionRoot(H, chunkHash, d)
  {
    assert PairUp(H, ChunkIds(chunkHash, d[|d| - 1 := last])) == PairUp(H, ChunkIds(chunkHash, d));
  }
}
