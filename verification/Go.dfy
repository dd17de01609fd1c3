/**
 The pieces of Go and its library the modelled code leans on: 64-bit subtraction and the
 random draws. A caller only sees a draw's contract, so what is proved holds for every draw.
 */
module Go {

  datatype Option<+T> = None | Some(value: T)

  const MAX_INT64: int := 0x7FFF_FFFF_FFFF_FFFF
  const TWO_64: int := 0x1_0000_0000_0000_0000

  /** int64 subtraction, wrapping around as Go's does. */
  function Sub64(a: int, b: int): (r: int)
    ensures -MAX_INT64 - 1 <= r <= MAX_INT64
    ensures -MAX_INT64 - 1 <= a - b <= MAX_INT64 ==> r == a - b
    ensures (r - (a - b)) % TWO_64 == 0
  {
    (a - b + MAX_INT64 + 1) % TWO_64 - MAX_INT64 - 1
  }

  /** rand.Intn panics unless n is positive. */
  method RandIntn(n: int) returns (r: int)
    requires n > 0
    ensures 0 <= r < n
  {
    r := *;
    if r < 0 || r >= n {
      r := 0;
    }
  }

  ghost predicate IsPermutation(p: seq<nat>, n: nat) {
    && |p| == n
    && (forall i :: 0 <= i < n ==> p[i] < n)
    && forall i, j :: 0 <= i < j < n ==> p[i] != p[j]
  }

  method RandPerm(n: nat) returns (p: seq<nat>)
    ensures IsPermutation(p, n)
  {
    p := seq(n, i => i);
  }

  function Pow2(n: nat): nat {
    if n == 0 then 1 else 2 * Pow2(n - 1)
  }

  lemma {:induction false} Pow2Positive(n: nat)
    ensures Pow2(n) >= 1
    decreases n
  {
    if n > 0 {
      Pow2Positive(n - 1);
    }
  }
}
