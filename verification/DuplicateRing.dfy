/**
 The gateway's duplicate filter: a 100-entry ring of digests with a set beside it for
 lookup. Seen from outside it is a window over the last 100 digests it has accepted.
 */
module DuplicateRing {
  import opened Dag

  const CAPACITY: nat := 100

  /** The last n entries of s. */
  function Last<T>(s: seq<T>, n: nat): seq<T> {
    if |s| <= n then s else s[|s| - n..]
  }

  class TxPoolSet {
    var poolSet: set<Hash>
    var txPool: seq<Hash>
    var curPointer: nat

    /** Every digest ever accepted, oldest first. */
    ghost var accepted: seq<Hash>

    /** The ring from its oldest entry on. */
    function Window(): seq<Hash>
      requires curPointer <= |txPool|
      reads this
    {
      txPool[curPointer..] + txPool[..curPointer]
    }

    ghost predicate Valid()
      reads this
    {
      && |txPool| <= CAPACITY && NoRepeats(txPool) && poolSet == Elements(txPool)
      && (if |txPool| < CAPACITY then curPointer == 0 else curPointer < CAPACITY)
      && Window() == Last(accepted, CAPACITY)
    }

    constructor ()
      ensures Valid() && accepted == []
    {
      poolSet, txPool, curPointer, accepted := {}, [], 0, [];
    }

    /** True exactly if the digest is among the last 100 accepted; otherwise it is accepted now. */
    method DuplicateMessage(msgSha: Hash) returns (flag: bool)
      requires Valid()
      modifies this
      ensures Valid()
      ensures flag <==> exists i :: |old(accepted)| - 100 <= i < |old(accepted)| && i >= 0 && old(accepted)[i] == msgSha
      ensures accepted == if flag then old(accepted) else old(accepted) + [msgSha]
    {
      WindowMembers(txPool, curPointer, msgSha);
      LastMembers(accepted, msgSha);
      flag := msgSha in poolSet;
      if flag {
        return;
      }
      poolSet := poolSet + {msgSha};
      var curSize := |txPool|;
      ghost var ring, cur, was := txPool, curPointer, accepted;
      if curSize == CAPACITY {
        poolSet := poolSet - {txPool[curPointer]};
        txPool := txPool[curPointer := msgSha];
        curPointer := (curPointer + 1) % CAPACITY;
        accepted := accepted + [msgSha];
        ReplaceOldest(ring, cur, msgSha);
        WindowTurns(ring, cur, msgSha, was);
      } else {
        txPool := txPool + [msgSha];
        poolSet := poolSet + {msgSha};
        accepted := accepted + [msgSha];
        WindowGrows(ring, msgSha, was);
      }
    }
  }

  lemma {:induction false} LastMembers(accepted: seq<Hash>, x: Hash)
    ensures x in Last(accepted, CAPACITY) <==>
      exists i :: |accepted| - 100 <= i < |accepted| && i >= 0 && accepted[i] == x
  {
    var last, skip := Last(accepted, CAPACITY), |accepted| - |Last(accepted, CAPACITY)|;
    if x in last {
      var k :| 0 <= k < |last| && last[k] == x;
      assert accepted[skip + k] == x;
    }
    if i :| |accepted| - 100 <= i < |accepted| && i >= 0 && accepted[i] == x {
      assert last[i - skip] == x;
    }
  }

  lemma {:induction false} WindowMembers(ring: seq<Hash>, cur: nat, x: Hash)
    requires cur <= |ring|
    ensures x in ring <==> x in ring[cur..] + ring[..cur]
  {
    assert ring == ring[..cur] + ring[cur..];
  }

  lemma {:induction false} WindowGrows(ring: seq<Hash>, x: Hash, accepted: seq<Hash>)
    requires |ring| < CAPACITY && NoRepeats(ring) && x !in ring
    requires ring[0..] + ring[..0] == Last(accepted, CAPACITY)
    ensures NoRepeats(ring + [x]) && Elements(ring + [x]) == Elements(ring) + {x}
    ensures (ring + [x])[0..] + (ring + [x])[..0] == Last(accepted + [x], CAPACITY)
  {
    assert ring == accepted;
    assert (ring + [x])[0..] + (ring + [x])[..0] == ring + [x];
  }

  /** Overwriting an entry with a new digest swaps exactly that entry in the set of digests. */
  lemma {:induction false} ReplaceOldest(ring: seq<Hash>, cur: nat, x: Hash)
    requires NoRepeats(ring) && cur < |ring| && x !in ring
    ensures NoRepeats(ring[cur := x])
    ensures Elements(ring[cur := x]) == Elements(ring) + {x} - {ring[cur]}
  {
    var ring' := ring[cur := x];
    forall y
      ensures y in ring' <==> y == x || (y in ring && y != ring[cur])
    {
      if y in ring && y != ring[cur] {
        var i :| 0 <= i < |ring| && ring[i] == y;
        assert ring'[i] == y;
      }
      assert ring'[cur] == x;
    }
  }

  /** Overwriting the oldest entry and stepping on, wrapping at the end, moves the window by one. */
  lemma {:induction false} WindowTurns(ring: seq<Hash>, cur: nat, x: Hash, accepted: seq<Hash>)
    requires |ring| == CAPACITY && cur < CAPACITY
    requires ring[cur..] + ring[..cur] == Last(accepted, CAPACITY)
    ensures var ring', cur' := ring[cur := x], (cur + 1) % CAPACITY;
      ring'[cur'..] + ring'[..cur'] == Last(accepted + [x], CAPACITY)
  {
    var ring', cur' := ring[cur := x], (cur + 1) % CAPACITY;
    var w := ring[cur..] + ring[..cur];
    assert w[1..] + [x] == Last(accepted + [x], CAPACITY);
    if cur + 1 == CAPACITY {
      assert ring' == ring[..cur] + [x];
    }
    assert ring'[cur'..] + ring'[..cur'] == w[1..] + [x];
  }
}
